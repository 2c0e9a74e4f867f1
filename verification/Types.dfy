/** The vocabulary of the challenge protocol (lib/challenge/types.go, lib/challenge/register.go). */
module Types {
  import opened Bytes
  import opened Wrappers

  /** Go strings are byte strings. */
  type Text = seq<byte>

  type Id = int

  lemma HasMember(ids: set<Id>)
    requires ids != {}
    ensures exists id :: id in ids
  {
    if forall id :: id !in ids {
    }
  }

  datatype VerifyResult = ResultNone | ResultFail | ResultSkip | ResultNotOK | ResultOK {
    /** OK is the greatest result, so being at least OK is being OK. */
    predicate Ok() { ResultOK? }
  }

  datatype VerifyState = StateNone | StatePass | StateBrief | StateFull {
    /** The header text; Go panics on a state that has none. */
    function Header(): Option<string>
    {
      match this
      case StatePass => Some("PASS")
      case StateBrief => Some("BRIEF")
      case StateFull => Some("FULL")
      case StateNone => None
    }
  }

  datatype Class = Transparent | Blocking

  /** A registered challenge: what the protocol reads of it. */
  datatype Registration = Registration(
    id: Id,
    name: Text,
    cls: Class,
    duration: int,
    keyHeaders: seq<Text>,
    hasVerify: bool,
    hasCondition: bool)
}
