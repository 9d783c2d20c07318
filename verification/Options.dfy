/** Small shared definitions: a value that may be missing, members of a set. */
module Options {

  datatype Option<+T> = None | Some(value: T)

  lemma Pick<T>(s: set<T>) returns (i: T)
    requires s != {}
    ensures i in s
  {
    i :| i in s;
  }

  lemma Alone<T>(s: set<T>, x: T)
    requires x in s
    ensures |s| == 1 <==> s == {x}
  {
    assert |s - {x}| == |s| - 1;
    assert s == {x} + (s - {x});
  }
}
