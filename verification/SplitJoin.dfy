/** Splitting by a separator and joining (sds.c): sdssplitlen and sdsjoinsds. */
module SplitJoin {
  import opened Bytes
  import opened SdsStrings
  import opened Quoting

  function Join(ts: seq<seq<Byte>>, sep: seq<Byte>): seq<Byte> {
    if ts == [] then []
    else if |ts| == 1 then ts[0]
    else ts[0] + sep + Join(ts[1..], sep)
  }

  /** sdsjoinsds. */
  method JoinSds(argv: seq<seq<Byte>>, sep: seq<Byte>) returns (join: Sds)
    ensures fresh(join) && join.Valid() && join.Contents() == Join(argv, sep)
  {
    join := new Sds.Empty();
    var j := 0;
    assert argv[0..] == argv;
    assert [] + Join(argv, sep) == Join(argv, sep);
    while j < |argv|
      invariant 0 <= j <= |argv| && fresh(join) && join.Valid()
      invariant join.Contents() + Join(argv[j..], sep) == Join(argv, sep)
    {
      ghost var was, rest := join.Contents(), Join(argv[j + 1..], sep);
      assert argv[j..][1..] == argv[j + 1..];
      join.CatLen(argv[j]);
      if j != |argv| - 1 {
        join.CatLen(sep);
        assert was + (argv[j] + sep + rest) == was + argv[j] + sep + rest;
      } else {
        assert argv[j + 1..] == [];
        assert was + argv[j] + [] == was + argv[j];
      }
      j := j + 1;
    }
    assert join.Contents() + [] == join.Contents();
  }

  predicate OccursAt(s: seq<Byte>, sep: seq<Byte>, p: int) {
    0 <= p && p + |sep| <= |s| && s[p..p + |sep|] == sep
  }

  ghost predicate Contains(s: seq<Byte>, sep: seq<Byte>) {
    exists p :: OccursAt(s, sep, p)
  }

  /** In `t` followed by the separator, the separator does not start before the end of `t`. */
  ghost predicate EndsAtFirst(t: seq<Byte>, sep: seq<Byte>) {
    forall p :: 0 <= p < |t| ==> !OccursAt(t + sep, sep, p)
  }

  /** `ts` splits `s` at the leftmost separators. */
  ghost predicate IsSplit(s: seq<Byte>, sep: seq<Byte>, ts: seq<seq<Byte>>) {
    && Join(ts, sep) == s
    && ts != []
    && (forall i :: 0 <= i < |ts| - 1 ==> EndsAtFirst(ts[i], sep))
    && !Contains(ts[|ts| - 1], sep)
  }

  /** No token holds the separator. */
  lemma TokensAreClean(s: seq<Byte>, sep: seq<Byte>, ts: seq<seq<Byte>>, i: nat)
    requires IsSplit(s, sep, ts) && i < |ts| && sep != []
    ensures !Contains(ts[i], sep)
  {
    if i < |ts| - 1 {
      var t := ts[i];
      forall p
        ensures !OccursAt(t, sep, p)
      {
        if 0 <= p && p + |sep| <= |t| {
          assert !OccursAt(t + sep, sep, p);
          assert (t + sep)[p..p + |sep|] == t[p..p + |sep|];
        }
      }
    }
  }

  /** The split is determined by the string and the separator. */
  lemma {:induction false} SplitIsUnique(s: seq<Byte>, sep: seq<Byte>, ts: seq<seq<Byte>>, ts': seq<seq<Byte>>)
    requires sep != [] && IsSplit(s, sep, ts) && IsSplit(s, sep, ts')
    ensures ts == ts'
    decreases |ts|
  {
    FirstTokens(s, sep, ts, ts');
    if |ts| > 1 {
      var rest := s[|ts[0]| + |sep|..];
      TailIsSplit(s, sep, ts);
      TailIsSplit(s, sep, ts');
      SplitIsUnique(rest, sep, ts[1..], ts'[1..]);
      assert ts == [ts[0]] + ts[1..] && ts' == [ts'[0]] + ts'[1..];
    }
  }

  lemma TailIsSplit(s: seq<Byte>, sep: seq<Byte>, ts: seq<seq<Byte>>)
    requires IsSplit(s, sep, ts) && |ts| > 1
    ensures s == ts[0] + sep + Join(ts[1..], sep)
    ensures IsSplit(s[|ts[0]| + |sep|..], sep, ts[1..])
  {
    var rest := ts[1..];
    TakeDrop(ts[0] + sep, Join(rest, sep));
    forall i | 0 <= i < |rest| - 1
      ensures EndsAtFirst(rest[i], sep)
    {
      assert rest[i] == ts[i + 1];
    }
  }

  /** The first token ends where the separator first occurs. */
  lemma FirstOccurrence(s: seq<Byte>, sep: seq<Byte>, ts: seq<seq<Byte>>)
    requires sep != [] && IsSplit(s, sep, ts)
    ensures |ts| > 1 ==> OccursAt(s, sep, |ts[0]|) && s[..|ts[0]|] == ts[0]
    ensures |ts| > 1 ==> forall p :: 0 <= p < |ts[0]| ==> !OccursAt(s, sep, p)
    ensures |ts| == 1 ==> s == ts[0] && forall p :: !OccursAt(s, sep, p)
  {
    if |ts| > 1 {
      TailIsSplit(s, sep, ts);
      var t := ts[0];
      forall p | 0 <= p < |t|
        ensures !OccursAt(s, sep, p)
      {
        assert !OccursAt(t + sep, sep, p);
        TakeDrop(t + sep, Join(ts[1..], sep));
        SliceOfSlice(s, 0, |t + sep|, p, p + |sep|);
      }
    }
  }

  lemma FirstTokens(s: seq<Byte>, sep: seq<Byte>, ts: seq<seq<Byte>>, ts': seq<seq<Byte>>)
    requires sep != [] && IsSplit(s, sep, ts) && IsSplit(s, sep, ts')
    ensures (|ts| == 1 <==> |ts'| == 1) && ts[0] == ts'[0]
    ensures |ts| == 1 ==> ts == ts'
  {
    FirstOccurrence(s, sep, ts);
    FirstOccurrence(s, sep, ts');
  }

  lemma {:induction false} JoinAppends(ts: seq<seq<Byte>>, t: seq<Byte>, sep: seq<Byte>)
    ensures Join(ts + [t], sep) == (if ts == [] then [] else Join(ts, sep) + sep) + t
    decreases |ts|
  {
    if |ts| == 0 {
      assert [] + [t] == [t] && [] + t == t;
    } else if |ts| == 1 {
      assert (ts + [t])[1..] == [t];
    } else {
      JoinAppends(ts[1..], t, sep);
      assert (ts + [t])[1..] == ts[1..] + [t];
      assert ts[0] + sep + (Join(ts[1..], sep) + sep + t) == ts[0] + sep + Join(ts[1..], sep) + sep + t;
    }
  }

  /** The text up to and including the separators of the tokens found so far. */
  function Eaten(ts: seq<seq<Byte>>, sep: seq<Byte>): seq<Byte> {
    if ts == [] then [] else Join(ts, sep) + sep
  }

  /** sdssplitlen. `slots` is the capacity of the token array. */
  method SplitLen(s: seq<Byte>, sep: seq<Byte>) returns (r: Option<seq<seq<Byte>>>)
    ensures sep == [] ==> r == None
    ensures sep != [] && s == [] ==> r == Some([])
    ensures sep != [] && s != [] ==> r.Some? && IsSplit(s, sep, r.value)
  {
    if |sep| < 1 { return None; }
    var slots := 5;
    if |s| == 0 { return Some([]); }
    var tokens, start, j := [], 0, 0;
    while j < |s| - (|sep| - 1)
      invariant 0 <= start <= j <= |s| && |tokens| + 1 <= slots
      invariant Eaten(tokens, sep) == s[..start]
      invariant forall i :: 0 <= i < |tokens| ==> EndsAtFirst(tokens[i], sep)
      invariant forall p :: start <= p < j ==> !OccursAt(s, sep, p)
    {
      if slots < |tokens| + 2 {
        slots := slots * 2;
      }
      if s[j..j + |sep|] == sep {
        assert |tokens| < slots;
        TokenFound(s, sep, tokens, start, j);
        tokens := tokens + [s[start..j]];
        start := j + |sep|;
        j := j + |sep| - 1;
      }
      j := j + 1;
    }
    assert |tokens| < slots;
    LastToken(s, sep, tokens, start);
    tokens := tokens + [s[start..]];
    return Some(tokens);
  }

  lemma TokenFound(s: seq<Byte>, sep: seq<Byte>, ts: seq<seq<Byte>>, start: nat, j: nat)
    requires sep != [] && start <= j && OccursAt(s, sep, j) && Eaten(ts, sep) == s[..start]
    requires forall p :: start <= p < j ==> !OccursAt(s, sep, p)
    ensures EndsAtFirst(s[start..j], sep)
    ensures Eaten(ts + [s[start..j]], sep) == s[..j + |sep|]
  {
    var t, end := s[start..j], j + |sep|;
    Cut(s, start, j, end);
    Cut(s, 0, start, end);
    assert t + sep == s[start..end];
    FoundFirst(s, sep, start, j);
    JoinAppends(ts, t, sep);
    Assoc(s[..start], t, sep);
  }

  lemma FoundFirst(s: seq<Byte>, sep: seq<Byte>, start: nat, j: nat)
    requires start <= j && OccursAt(s, sep, j) && s[start..j] + sep == s[start..j + |sep|]
    requires forall p :: start <= p < j ==> !OccursAt(s, sep, p)
    ensures EndsAtFirst(s[start..j], sep)
  {
    forall p | 0 <= p < j - start
      ensures !OccursAt(s[start..j] + sep, sep, p)
    {
      assert !OccursAt(s, sep, start + p);
      SliceOfSlice(s, start, j + |sep|, p, p + |sep|);
    }
  }

  lemma LastToken(s: seq<Byte>, sep: seq<Byte>, ts: seq<seq<Byte>>, start: nat)
    requires sep != [] && start <= |s| && Eaten(ts, sep) == s[..start]
    requires forall i :: 0 <= i < |ts| ==> EndsAtFirst(ts[i], sep)
    requires forall p :: start <= p < |s| - (|sep| - 1) ==> !OccursAt(s, sep, p)
    ensures IsSplit(s, sep, ts + [s[start..]])
  {
    var t := s[start..];
    JoinAppends(ts, t, sep);
    Cut(s, 0, start, |s|);
    forall p
      ensures !OccursAt(t, sep, p)
    {
      if 0 <= p && p + |sep| <= |t| {
        assert !OccursAt(s, sep, start + p);
        SliceOfSlice(s, start, |s|, p, p + |sep|);
      }
    }
  }

  // ----- Quoted lines are joined lines -----

  function Reprs(args: seq<seq<Byte>>): seq<seq<Byte>> {
    seq(|args|, i requires 0 <= i < |args| => Repr(args[i]))
  }

  lemma {:induction false} JoinOfWords(rs: seq<seq<Byte>>)
    requires rs != [] && forall i :: 0 <= i < |rs| ==> rs[i] != []
    ensures Join(rs, [SPACE]) != []
  {
  }

  lemma JoinUnfolds(rs: seq<seq<Byte>>)
    requires rs != [] && forall i :: 0 <= i < |rs| ==> rs[i] != []
    ensures Join(rs, [SPACE]) == rs[0] + Following(Join(rs[1..], [SPACE]))
  {
    var tail := rs[1..];
    if |rs| == 1 {
      assert tail == [] && rs[0] + [] == rs[0];
    } else {
      assert forall i :: 0 <= i < |tail| ==> tail[i] == rs[i + 1];
      JoinOfWords(tail);
      Assoc(rs[0], [SPACE], Join(tail, [SPACE]));
    }
  }

  lemma ReprsUnfold(args: seq<seq<Byte>>)
    requires args != []
    ensures Reprs(args)[0] == Repr(args[0]) && Reprs(args)[1..] == Reprs(args[1..])
    ensures forall i :: 0 <= i < |args| ==> Reprs(args)[i] != []
  {
  }

  lemma {:induction false} QuotedLineIsJoin(args: seq<seq<Byte>>)
    ensures QuotedLine(args) == Join(Reprs(args), [SPACE])
    decreases |args|
  {
    if args != [] {
      QuotedLineIsJoin(args[1..]);
      ReprsUnfold(args);
      JoinUnfolds(Reprs(args));
    }
  }

  /** Quoting each argument, joining with spaces and splitting the line again. */
  method QuoteAndSplit(args: seq<seq<Byte>>) returns (r: Option<seq<seq<Byte>>>)
    ensures r == Some(args)
  {
    var quoted := [];
    var i := 0;
    while i < |args|
      invariant 0 <= i <= |args| && quoted == Reprs(args[..i])
    {
      var s := new Sds.Empty();
      CatRepr(s, args[i]);
      assert [] + Repr(args[i]) == Repr(args[i]);
      assert args[..i + 1] == args[..i] + [args[i]];
      quoted := quoted + [s.buf[..s.len]];
      i := i + 1;
    }
    assert args[..i] == args;
    var line := JoinSds(quoted, [SPACE]);
    QuotedLineIsJoin(args);
    QuotingRoundTrip(args);
    r := SplitArgs(line.buf[..line.len]);
  }
}
