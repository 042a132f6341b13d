/**
 * Go's `for k := range m` visits the keys of a map in an unspecified order.
 * The model visits them by repeatedly choosing some key not yet visited.
 */
module MapIteration {

  /** Some element of a non-empty set: the next key a map iteration visits. */
  method Pick<T>(s: set<T>) returns (x: T)
    requires s != {}
    ensures x in s
  {
    HasElement(s);
    x :| x in s;
  }

  lemma HasElement<T>(s: set<T>)
    requires s != {}
    ensures exists x :: x in s
  {
  }
}
