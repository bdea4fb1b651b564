/** The optional value the other modules share. */
module Options {
  datatype Option<+T> = None | Some(value: T) {
    function GetOr(default: T): T {
      match this
      case Some(v) => v
      case None => default
    }

    function Or(other: Option<T>): Option<T> {
      if Some? then this else other
    }
  }

  function Min(a: nat, b: nat): nat {
    if a <= b then a else b
  }

  function Max(a: nat, b: nat): nat {
    if a <= b then b else a
  }

  lemma SubsetSize<T>(a: set<T>, b: set<T>)
    requires a <= b
    ensures |a| <= |b|
  {
    assert b == a + (b - a);
  }
}
