/** Bytes, optional values, and facts about collections that several modules need. */
module Common {

  datatype Option<T> = None | Some(value: T)

  type Byte = x: nat | x < 256
  type Bytes = seq<Byte>

  /** The sequence e stands at a position of m. */
  predicate At<T(==)>(m: seq<T>, pos: nat, e: seq<T>) {
    pos + |e| <= |m| && m[pos..pos + |e|] == e
  }

  lemma AtSplit<T>(m: seq<T>, pos: nat, e: seq<T>, f: seq<T>)
    requires At(m, pos, e + f)
    ensures At(m, pos, e) && At(m, pos + |e|, f)
  {
    var whole := m[pos..pos + |e + f|];
    assert e == whole[..|e|] && f == whole[|e|..];
  }

  lemma {:induction false} SubsetSize<T>(a: set<T>, b: set<T>)
    requires a <= b
    ensures |a| <= |b|
    decreases |a|
  {
    if a != {} {
      var x :| x in a;
      SubsetSize(a - {x}, b - {x});
    }
  }
}
