/** Iterating over a set: some element of a nonempty set. */
module Sets {

  method Pick<T>(items: set<T>) returns (x: T)
    requires items != {}
    ensures x in items
  {
    x :| x in items;
  }
}
