/** Loops over a set, which Python iterates in an order it leaves open. */
module Sets {

  /** The next item of a loop over a set: any member, since the order in which a set is iterated is left open. */
  method Choose<T>(s: set<T>) returns (x: T)
    requires s != {}
    ensures x in s
  {
    Inhabited(s);
    x :| x in s;
  }

  /** A set that is not empty has a member. */
  lemma Inhabited<T>(s: set<T>)
    requires s != {}
    ensures exists x :: x in s
  {
    if forall x :: x !in s {
      assert false;
    }
  }
}
