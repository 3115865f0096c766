/** The records the game server keeps in memory: participants, rooms and what a room holds. */
module Types {

  /** Connection ids and room ids are strings. */
  type Id = string

  datatype Option<T> = None | Some(value: T)

  /** A connected participant, created on connection. Rooms refer to it by `id`, so every
      change to `score` or `turns` is seen wherever the participant is referenced. */
  datatype Participant = Participant(id: Id, name: string, score: nat, turns: nat)

  /** The movie a dealer picked; only its rating takes part in the game logic. */
  datatype Movie = Movie(imdbRating: real)

  /** One submitted guess: who cast it and the rating they guessed. */
  datatype Guess = Guess(user: Id, vote: real)

  datatype ChatEntry = ChatEntry(name: string, message: string)

  /** A game room. `players` is ordered: the order breaks ties in dealer rotation. */
  datatype Room = Room(
    id: Id,
    password: string,
    active: bool,
    host: Id,
    players: seq<Id>,
    chat: seq<ChatEntry>,
    dealer: Option<Id>,
    critMovie: Option<Movie>,
    movies: seq<Movie>,
    guesses: seq<Guess>,
    winners: seq<Guess>)
}
