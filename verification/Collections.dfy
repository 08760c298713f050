/** Taking an element out of a set, in no particular order. */
module Collections {
  method AnyOf<T(==)>(elements: set<T>) returns (element: T)
    requires elements != {}
    ensures element in elements
  {
    element :| element in elements;
  }

  lemma SomeElement<T>(elements: set<T>) returns (element: T)
    requires elements != {}
    ensures element in elements
  {
    element :| element in elements;
  }
}
