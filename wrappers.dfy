/** Optional values, for the places where the firmware silently drops input. */
module Wrappers {
  datatype Option<+T> = None | Some(value: T)
}

/** Facts about finite sets used by the loops that visit a map's keys one at a time. */
module Sets {
  /** A non-empty set has a member to pick. */
  lemma HasMember(s: set<int>)
    requires s != {}
    ensures exists x :: x in s
  {
    if forall x :: x !in s {
      assert false;
    }
  }
}
