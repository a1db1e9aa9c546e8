/** Small types and predicates that several components share. */
module Common {
  datatype Option<T> = None | Some(value: T)

  /** An environment variable. */
  datatype Pair = Pair(key: string, val: string)

  lemma ConcatAssoc<T>(a: seq<T>, b: seq<T>, c: seq<T>)
    ensures a + b + c == a + (b + c)
  {
  }

  /** x sits at offset o of s. */
  ghost predicate At<T>(s: seq<T>, o: nat, x: seq<T>) {
    o + |x| <= |s| && forall i | 0 <= i < |x| :: s[o + i] == x[i]
  }

  lemma AtPart<T>(s: seq<T>, o: nat, x: seq<T>, p: nat, y: seq<T>)
    requires At(s, o, x) && At(x, p, y)
    ensures At(s, o + p, y)
  {
    forall i | 0 <= i < |y| ensures s[o + p + i] == y[i] {
      assert s[o + (p + i)] == x[p + i];
    }
  }

  lemma AtSplit<T>(s: seq<T>, o: nat, x: seq<T>, y: seq<T>)
    requires At(s, o, x + y)
    ensures At(s, o, x) && At(s, o + |x|, y)
  {
    AtPart(s, o, x + y, 0, x);
    AtPart(s, o, x + y, |x|, y);
  }

  lemma AtFirst<T>(s: seq<T>, o: nat, x: seq<T>)
    requires At(s, o, x) && x != []
    ensures o < |s| && s[o] == x[0]
  {
    assert s[o + 0] == x[0];
  }

  lemma AtSlice<T>(s: seq<T>, o: nat, x: seq<T>)
    ensures At(s, o, x) <==> o + |x| <= |s| && s[o..o + |x|] == x
  {
    if o + |x| <= |s| {
      var t := s[o..o + |x|];
      assert forall i | 0 <= i < |t| :: t[i] == s[o + i];
    }
  }
}
