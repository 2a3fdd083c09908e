/** Ranges and formats of dynamic strings at inputs written out, and what the hash of
    a key is. */
module SdsLaws {
  import opened Bytes
  import opened Decimal
  import opened SdsStrings

  // ----- sdsrange -----

  /** The first byte of a range: negative indices count from the end. */
  function From(s: seq<Byte>, i: int): nat {
    if i >= 0 then i else if |s| + i >= 0 then |s| + i else 0
  }

  /** Byte k is kept exactly if it stands between the two indices. */
  lemma RangeKeeps(s: seq<Byte>, start: int, end: int)
    ensures var r, a, e := Slice(s, start, end), From(s, start), From(s, end);
            && (forall k :: a <= k <= e && k < |s| ==> k - a < |r| && r[k - a] == s[k])
            && |r| == if a <= e && a < |s| then (if e < |s| then e - a + 1 else |s| - a) else 0
  {
  }

  lemma RangesOfCiao()
    ensures Slice(Ascii("ciao"), 1, 1) == Ascii("i") && Slice(Ascii("ciao"), 1, -1) == Ascii("iao")
    ensures Slice(Ascii("ciao"), -2, -1) == Ascii("ao") && Slice(Ascii("ciao"), 2, 1) == []
    ensures Slice(Ascii("ciao"), 1, 100) == Ascii("iao") && Slice(Ascii("ciao"), 100, 100) == []
  {
  }

  // ----- sdscatfmt -----

  /** A piece of a format: text, a directive with its argument, or a percent sign in
      front of a byte that is no directive. */
  datatype Part =
    | Text(t: seq<Byte>)
    | String(t: seq<Byte>)
    | Number(v: int)
    | Unsigned(n: nat)
    | Other(b: Byte)

  predicate PartOk(p: Part) {
    match p
    case Text(t) => 0 !in t && 37 !in t
    case String(_) => true
    case Number(v) => -LLONG_MAX <= v <= LLONG_MAX
    case Unsigned(n) => n <= ULLONG_MAX
    case Other(b) => b != 0 && b !in Ascii("sSiIuUT")
  }

  /** `letter` picks between the spellings of a directive. */
  function Spelling(p: Part, letter: nat): seq<Byte> {
    match p
    case Text(t) => t
    case String(_) => if letter == 0 then Ascii("%s") else Ascii("%S")
    case Number(_) => if letter == 0 then Ascii("%i") else Ascii("%I")
    case Unsigned(_) => if letter == 0 then Ascii("%u") else if letter == 1 then Ascii("%U") else Ascii("%T")
    case Other(b) => [37, b]
  }

  function Taking(p: Part): seq<FmtArg> {
    match p
    case String(t) => [TextArg(t)]
    case Number(v) => [SignedArg(v)]
    case Unsigned(n) => [UnsignedArg(n)]
    case _ => []
  }

  function Meaning(p: Part): seq<Byte> {
    match p
    case Text(t) => t
    case String(t) => t
    case Number(v) => Signed(v)
    case Unsigned(n) => Dec(n)
    case Other(b) => [b]
  }

  function Spellings(ps: seq<Part>, letters: seq<nat>): seq<Byte>
    requires |ps| == |letters|
  {
    if ps == [] then [] else Spelling(ps[0], letters[0]) + Spellings(ps[1..], letters[1..])
  }

  function Takings(ps: seq<Part>): seq<FmtArg> {
    if ps == [] then [] else Taking(ps[0]) + Takings(ps[1..])
  }

  function Meanings(ps: seq<Part>): seq<Byte> {
    if ps == [] then [] else Meaning(ps[0]) + Meanings(ps[1..])
  }

  lemma {:induction false} TextFirst(t: seq<Byte>, f: seq<Byte>, args: seq<FmtArg>)
    requires FmtOk(f, args) && 0 !in t && 37 !in t
    ensures FmtOk(t + f, args) && FmtText(t + f, args) == t + FmtText(f, args)
    decreases |t|
  {
    if t == [] {
      assert t + f == f;
    } else {
      TextFirst(t[1..], f, args);
      LiteralFirst(t[0], t[1..] + f, args);
      assert t == [t[0]] + t[1..];
      Assoc([t[0]], t[1..], f);
      Assoc([t[0]], t[1..], FmtText(f, args));
    }
  }

  lemma LiteralFirst(b: Byte, f: seq<Byte>, args: seq<FmtArg>)
    requires FmtOk(f, args) && b != 0 && b != 37
    ensures FmtOk([b] + f, args) && FmtText([b] + f, args) == [b] + FmtText(f, args)
  {
    assert ([b] + f)[1..] == f;
  }

  lemma LettersAre()
    ensures Ascii("sSiIuUT") == [115, 83, 105, 73, 117, 85, 84]
    ensures Ascii("%s") == [37, 115] && Ascii("%S") == [37, 83] && Ascii("%i") == [37, 105]
    ensures Ascii("%I") == [37, 73] && Ascii("%u") == [37, 117] && Ascii("%U") == [37, 85] && Ascii("%T") == [37, 84]
  {
  }

  lemma DirectiveFirst(p: Part, letter: nat, f: seq<Byte>, args: seq<FmtArg>)
    requires PartOk(p) && !p.Text? && FmtOk(f, args)
    ensures FmtOk(Spelling(p, letter) + f, Taking(p) + args)
    ensures FmtText(Spelling(p, letter) + f, Taking(p) + args) == Meaning(p) + FmtText(f, args)
  {
    LettersAre();
    var f', args' := Spelling(p, letter) + f, Taking(p) + args;
    assert f'[0] == 37 && f'[2..] == f;
    if p.Other? {
      assert args' == args;
    } else {
      assert args'[0] == Taking(p)[0] && args'[1..] == args;
    }
  }

  lemma PartFirst(p: Part, letter: nat, f: seq<Byte>, args: seq<FmtArg>)
    requires PartOk(p) && FmtOk(f, args)
    ensures FmtOk(Spelling(p, letter) + f, Taking(p) + args)
    ensures FmtText(Spelling(p, letter) + f, Taking(p) + args) == Meaning(p) + FmtText(f, args)
  {
    if p.Text? {
      TextFirst(p.t, f, args);
      assert Taking(p) + args == args;
    } else {
      DirectiveFirst(p, letter, f, args);
    }
  }

  /** A format stands for its pieces, one after the other. */
  lemma {:induction false} FmtMeans(ps: seq<Part>, letters: seq<nat>)
    requires |ps| == |letters| && forall i :: 0 <= i < |ps| ==> PartOk(ps[i])
    ensures FmtOk(Spellings(ps, letters), Takings(ps))
    ensures FmtText(Spellings(ps, letters), Takings(ps)) == Meanings(ps)
    decreases |ps|
  {
    if ps != [] {
      FmtMeans(ps[1..], letters[1..]);
      PartFirst(ps[0], letters[0], Spellings(ps[1..], letters[1..]), Takings(ps[1..]));
    }
  }
}
