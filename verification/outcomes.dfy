/** Optional values, results and the error vocabulary shared by every route.
    Each failure names the branch of the source that produced it; `HttpStatus`
    gives the status code that branch answers with. */
module Outcomes {

  /** `None` stands for JavaScript's `undefined`/`null`. */
  datatype Option<+T> = None | Some(value: T)

  /** Every rejection a modelled handler can answer with. */
  datatype Failure =
    | SelfPlay              // create: body carries a one-player list
    | GameNotAvailable      // join: the game already has two players
    | NotAPlayer            // place: the caller is neither player
    | NotAuthenticated      // fire: neither body nor token names a user
    | InvalidGameState      // fire, skip: the game is not active
    | OpponentNotFound      // fire, skip: no player differs from the turn
    | CellAlreadyTargeted   // fire: the target cell was already shot at
    | GameNotActive         // start: the game is not active
    | ServerError           // a TypeError caught by the route's catch block
    | InvalidUsername       // register: username format
    | InvalidPassword       // register: password format or mismatch
    | InvalidInput          // register (older revision): missing field or mismatch
    | UsernameExists        // register: duplicate username
    | UserNotFound          // login: unknown username
    | IncorrectPassword     // login: password check failed
    | InvalidCredentials    // login (older revision): either failure

  datatype Result<+T> = Ok(value: T) | Err(error: Failure)

  /** The HTTP status each failure is answered with. */
  function HttpStatus(f: Failure): (code: int)
    ensures 400 <= code < 600
    ensures code == 401 <==> f == NotAuthenticated || f == UserNotFound
    ensures code == 409 <==> f == UsernameExists
  {
    match f
    case NotAuthenticated => 401
    case UserNotFound => 401
    case NotAPlayer => 403
    case UsernameExists => 409
    case ServerError => 500
    case _ => 400
  }
}
