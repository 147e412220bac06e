/** Value types shared by the routing model (src/HttpTypes.hpp). */
module HttpTypes {

  datatype Option<+T> = None | Some(value: T)

  datatype Result<+T, +E> = Ok(value: T) | Err(error: E)

  // An HTTP method, named by its ordinal in the verb enumeration.
  type Verb = nat

  // A registered handler is opaque to the router: only its identity matters.
  type HandlerId = nat

  datatype Route = Route(handler: HandlerId, names: seq<string>)

  datatype MatchResult = MatchResult(route: Route, values: seq<string>)
}
