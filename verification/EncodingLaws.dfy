/** Commands byte by byte: what the encoders put on the wire, and what the arguments
    of a format are, at inputs written out. */
module EncodingLaws {
  import opened Bytes
  import opened Decimal
  import opened Resp
  import opened Commands
  import opened Formats

  // ----- The wire -----

  /** Arguments as bulk strings: dollar sign, length, line end, bytes, line end. */
  function Bulks(args: seq<seq<Byte>>): seq<Byte> {
    if args == [] then []
    else [36] + Dec(|args[0]|) + [13, 10] + args[0] + [13, 10] + Bulks(args[1..])
  }

  lemma {:induction false} BulksArePrinted(args: seq<seq<Byte>>)
    ensures PrintMany(Strs(args)) == Bulks(args)
  {
    if args != [] {
      assert Strs(args)[0] == Str(args[0]) && Strs(args)[1..] == Strs(args[1..]);
      BulksArePrinted(args[1..]);
      assert Print(Str(args[0])) == [36] + Dec(|args[0]|) + [13, 10] + args[0] + [13, 10];
    }
  }

  /** Every byte of an encoded command: star, count, line end, and the arguments. */
  lemma WireBytes(args: seq<seq<Byte>>)
    ensures Wire(args) == [42] + Dec(|args|) + [13, 10] + Bulks(args)
  {
    BulksArePrinted(args);
    assert [STAR] + Line(Dec(|args|)) == [42] + Dec(|args|) + [13, 10];
  }

  /** The command of one argument, written out. */
  lemma Ping()
    ensures Wire([Ascii("PING")]) == Ascii("*1\r\n") + Ascii("$4\r\n") + Ascii("PING") + Ascii("\r\n")
  {
    var args, none: seq<seq<Byte>> := [Ascii("PING")], [];
    WireBytes(args);
    assert args[1..] == none && Bulks(none) == [];
    assert Dec(1) == [49] && Dec(4) == [52];
  }

  // ----- Formats -----

  /** A piece of a word of a format: text that stands for itself, a string with
      whatever lies behind its terminator, a counted block with whatever lies behind
      it, or a percent sign. */
  datatype Part =
    | Text(t: seq<Byte>)
    | CStr(t: seq<Byte>, junk: seq<Byte>)
    | Blob(t: seq<Byte>, junk: seq<Byte>)
    | Percent

  predicate PartOk(p: Part) {
    match p
    case Text(t) => t != [] && Plain(t)
    case CStr(t, _) => 0 !in t
    case Blob(_, _) => true
    case Percent => true
  }

  /** How a piece is written in the format, what it takes from the arguments, and
      what it stands for. */
  function Spelling(p: Part): seq<Byte> {
    match p
    case Text(t) => t
    case CStr(_, _) => Ascii("%s")
    case Blob(_, _) => Ascii("%b")
    case Percent => Ascii("%%")
  }

  function Taking(p: Part): seq<VArg> {
    match p
    case Text(_) => []
    case CStr(t, junk) => [Pointer(t + [0] + junk)]
    case Blob(t, junk) => [Pointer(t + junk), Size(|t|)]
    case Percent => []
  }

  function Meaning(p: Part): seq<Byte> {
    match p
    case Text(t) => t
    case CStr(t, _) => t
    case Blob(t, _) => t
    case Percent => Ascii("%")
  }

  /** A word behind a number of spaces. */
  datatype Spaced = Spaced(gap: nat, parts: seq<Part>)

  predicate LineOk(line: seq<Spaced>) {
    forall i :: 0 <= i < |line| ==>
      line[i].parts != [] && (i > 0 ==> line[i].gap > 0) && PartsOk(line[i].parts)
  }

  function Spaces(n: nat): seq<Byte> {
    if n == 0 then [] else [32] + Spaces(n - 1)
  }

  function PartsSpelling(ps: seq<Part>): seq<Byte> {
    if ps == [] then [] else Spelling(ps[0]) + PartsSpelling(ps[1..])
  }

  function PartsTaking(ps: seq<Part>): seq<VArg> {
    if ps == [] then [] else Taking(ps[0]) + PartsTaking(ps[1..])
  }

  function PartsMeaning(ps: seq<Part>): seq<Byte> {
    if ps == [] then [] else Meaning(ps[0]) + PartsMeaning(ps[1..])
  }

  function LineSpelling(line: seq<Spaced>, tail: nat): seq<Byte> {
    if line == [] then Spaces(tail)
    else Spaces(line[0].gap) + (PartsSpelling(line[0].parts) + LineSpelling(line[1..], tail))
  }

  function LineTaking(line: seq<Spaced>): seq<VArg> {
    if line == [] then [] else PartsTaking(line[0].parts) + LineTaking(line[1..])
  }

  function LineMeaning(line: seq<Spaced>): seq<seq<Byte>> {
    if line == [] then [] else [PartsMeaning(line[0].parts)] + LineMeaning(line[1..])
  }

  /** One literal byte in front of a format. */
  lemma ByteFirst(b: Byte, f: seq<Byte>, ap: seq<VArg>)
    requires FormatOk(f, ap) && b != 0 && b != 37
    ensures FormatOk([b] + f, ap)
    ensures Symbols([b] + f, ap) == [if b == 32 then Gap else Piece([b])] + Symbols(f, ap)
  {
    assert ([b] + f)[1..] == f;
  }

  /** Each piece of a word is a run of pieces that join to what it stands for. */
  function PartSymbols(p: Part): (syms: seq<Symbol>)
    ensures forall i :: 0 <= i < |syms| ==> syms[i].Piece?
  {
    match p
    case Text(t) => seq(|t|, i requires 0 <= i < |t| => Piece([t[i]]))
    case CStr(t, _) => [Piece(t)]
    case Blob(t, _) => [Piece(t)]
    case Percent => [Piece([37])]
  }

  lemma TextSymbolsUnfold(t: seq<Byte>)
    requires t != []
    ensures PartSymbols(Text(t)) == [Piece([t[0]])] + PartSymbols(Text(t[1..]))
  {
  }

  predicate Plain(t: seq<Byte>) {
    forall i :: 0 <= i < |t| ==> t[i] !in [0, 32, 37]
  }

  lemma {:induction false} TextFirst(t: seq<Byte>, f: seq<Byte>, ap: seq<VArg>)
    requires FormatOk(f, ap) && Plain(t)
    ensures FormatOk(t + f, ap)
    ensures Symbols(t + f, ap) == PartSymbols(Text(t)) + Symbols(f, ap)
    decreases |t|
  {
    if t == [] {
      assert t + f == f && PartSymbols(Text(t)) + Symbols(f, ap) == Symbols(f, ap);
    } else {
      var b, rest := t[0], t[1..];
      assert Plain(rest) && b !in [0, 32, 37];
      TextFirst(rest, f, ap);
      ByteFirst(b, rest + f, ap);
      assert t == [b] + rest;
      Assoc([b], rest, f);
      TextSymbolsUnfold(t);
      Assoc([Piece([b])], PartSymbols(Text(rest)), Symbols(f, ap));
    }
  }

  lemma {:induction false} CStringIs(t: seq<Byte>, junk: seq<Byte>)
    requires 0 !in t
    ensures CString(t + [0] + junk) == t
    decreases |t|
  {
    var mem := t + [0] + junk;
    if t != [] {
      assert mem[0] == t[0] && mem[1..] == t[1..] + [0] + junk;
      CStringIs(t[1..], junk);
    }
  }

  lemma PartFirst(p: Part, f: seq<Byte>, ap: seq<VArg>)
    requires PartOk(p) && FormatOk(f, ap)
    ensures FormatOk(Spelling(p) + f, Taking(p) + ap)
    ensures Symbols(Spelling(p) + f, Taking(p) + ap) == PartSymbols(p) + Symbols(f, ap)
  {
    match p {
      case Text(t) =>
        TextFirst(t, f, ap);
        assert Taking(p) + ap == ap;
      case CStr(t, junk) => CStrFirst(t, junk, f, ap);
      case Blob(t, junk) => BlobPart(t, junk, f, ap);
      case Percent =>
        assert (Ascii("%%") + f)[2..] == f && Taking(p) + ap == ap;
    }
  }

  lemma CStrFirst(t: seq<Byte>, junk: seq<Byte>, f: seq<Byte>, ap: seq<VArg>)
    requires 0 !in t && FormatOk(f, ap)
    ensures FormatOk(Ascii("%s") + f, [Pointer(t + [0] + junk)] + ap)
    ensures Symbols(Ascii("%s") + f, [Pointer(t + [0] + junk)] + ap) == [Piece(t)] + Symbols(f, ap)
  {
    var f', ap' := Ascii("%s") + f, [Pointer(t + [0] + junk)] + ap;
    assert f'[2..] == f && ap'[1..] == ap && f'[0] == 37 && f'[1] == 115;
    assert (t + [0] + junk)[|t|] == 0;
    CStringIs(t, junk);
  }

  lemma BlobPart(t: seq<Byte>, junk: seq<Byte>, f: seq<Byte>, ap: seq<VArg>)
    requires FormatOk(f, ap)
    ensures FormatOk(Ascii("%b") + f, [Pointer(t + junk), Size(|t|)] + ap)
    ensures Symbols(Ascii("%b") + f, [Pointer(t + junk), Size(|t|)] + ap) == [Piece(t)] + Symbols(f, ap)
  {
    var f', ap' := Ascii("%b") + f, [Pointer(t + junk), Size(|t|)] + ap;
    assert f'[2..] == f && ap'[2..] == ap && f'[0] == 37 && f'[1] == 98;
    assert (t + junk)[..|t|] == t;
  }

  function PartsSymbols(ps: seq<Part>): (syms: seq<Symbol>)
    ensures forall i :: 0 <= i < |syms| ==> syms[i].Piece?
  {
    if ps == [] then [] else PartSymbols(ps[0]) + PartsSymbols(ps[1..])
  }

  predicate PartsOk(ps: seq<Part>) {
    forall j :: 0 <= j < |ps| ==> PartOk(ps[j])
  }

  lemma {:induction false} PartsFirst(ps: seq<Part>, f: seq<Byte>, ap: seq<VArg>)
    requires PartsOk(ps) && FormatOk(f, ap)
    ensures FormatOk(PartsSpelling(ps) + f, PartsTaking(ps) + ap)
    ensures Symbols(PartsSpelling(ps) + f, PartsTaking(ps) + ap) == PartsSymbols(ps) + Symbols(f, ap)
    decreases |ps|
  {
    if ps == [] {
      assert PartsSpelling(ps) + f == f && PartsTaking(ps) + ap == ap;
    } else {
      var f1, ap1 := PartsSpelling(ps[1..]) + f, PartsTaking(ps[1..]) + ap;
      PartsFirst(ps[1..], f, ap);
      PartFirst(ps[0], f1, ap1);
      Assoc(Spelling(ps[0]), PartsSpelling(ps[1..]), f);
      Assoc(Taking(ps[0]), PartsTaking(ps[1..]), ap);
      Assoc(PartSymbols(ps[0]), PartsSymbols(ps[1..]), Symbols(f, ap));
    }
  }

  lemma {:induction false} JoinedSplits(a: seq<Symbol>, b: seq<Symbol>)
    requires forall i :: 0 <= i < |a| ==> a[i].Piece?
    requires forall i :: 0 <= i < |b| ==> b[i].Piece?
    ensures Joined(a + b) == Joined(a) + Joined(b)
    decreases |a|
  {
    if a == [] {
      assert a + b == b;
    } else {
      assert (a + b)[0] == a[0] && (a + b)[1..] == a[1..] + b;
      JoinedSplits(a[1..], b);
      Assoc(a[0].text, Joined(a[1..]), Joined(b));
    }
  }

  lemma {:induction false} JoinedText(t: seq<Byte>)
    ensures Joined(PartSymbols(Text(t))) == t
  {
    var syms := PartSymbols(Text(t));
    if t != [] {
      assert syms[0] == Piece([t[0]]) && syms[1..] == PartSymbols(Text(t[1..]));
      JoinedText(t[1..]);
      assert [t[0]] + t[1..] == t;
    }
  }

  lemma JoinedPart(p: Part)
    ensures Joined(PartSymbols(p)) == Meaning(p)
  {
    if p.Text? {
      JoinedText(p.t);
    } else {
      var syms := PartSymbols(p);
      assert syms[1..] == [] && Joined([]) == [];
      assert Joined(syms) == syms[0].text + [];
    }
  }

  lemma {:induction false} JoinedParts(ps: seq<Part>)
    ensures Joined(PartsSymbols(ps)) == PartsMeaning(ps)
  {
    if ps != [] {
      JoinedSplits(PartSymbols(ps[0]), PartsSymbols(ps[1..]));
      JoinedPart(ps[0]);
      JoinedParts(ps[1..]);
    }
  }

  /** A run of pieces up to a gap or the end is one token. */
  lemma RunIsToken(run: seq<Symbol>, rest: seq<Symbol>)
    requires run != [] && forall i :: 0 <= i < |run| ==> run[i].Piece?
    requires rest == [] || rest[0].Gap?
    ensures Tokens(run + rest) == [Joined(run)] + Tokens(rest)
  {
    var s := run + rest;
    var n := RunLength(s);
    assert forall i :: 0 <= i < |run| ==> s[i] == run[i];
    assert rest != [] ==> s[|run|] == rest[0];
    assert n == |run|;
    assert s[..n] == run && s[n..] == rest;
  }

  lemma {:induction false} SpacesFirst(n: nat, f: seq<Byte>, ap: seq<VArg>)
    requires FormatOk(f, ap)
    ensures FormatOk(Spaces(n) + f, ap) && Tokens(Symbols(Spaces(n) + f, ap)) == Tokens(Symbols(f, ap))
    ensures n > 0 ==> Symbols(Spaces(n) + f, ap) != [] && Symbols(Spaces(n) + f, ap)[0].Gap?
    decreases n
  {
    if n == 0 {
      assert Spaces(n) + f == f;
    } else {
      SpacesFirst(n - 1, f, ap);
      Assoc([32], Spaces(n - 1), f);
      ByteFirst(32, Spaces(n - 1) + f, ap);
      assert ([Gap] + Symbols(Spaces(n - 1) + f, ap))[1..] == Symbols(Spaces(n - 1) + f, ap);
    }
  }

  /** The format does not go on with the word in front of it. */
  ghost predicate WordEnds(f: seq<Byte>, ap: seq<VArg>)
    requires FormatOk(f, ap)
  {
    Symbols(f, ap) == [] || Symbols(f, ap)[0].Gap?
  }

  lemma WordFirst(ps: seq<Part>, f: seq<Byte>, ap: seq<VArg>)
    requires PartsOk(ps) && ps != [] && FormatOk(f, ap) && WordEnds(f, ap)
    ensures FormatOk(PartsSpelling(ps) + f, PartsTaking(ps) + ap)
    ensures Tokens(Symbols(PartsSpelling(ps) + f, PartsTaking(ps) + ap)) == [PartsMeaning(ps)] + Tokens(Symbols(f, ap))
  {
    PartsFirst(ps, f, ap);
    JoinedParts(ps);
    assert PartOk(ps[0]) && PartSymbols(ps[0]) != [];
    RunIsToken(PartsSymbols(ps), Symbols(f, ap));
  }

  lemma SpacesAlone(n: nat)
    ensures FormatOk(Spaces(n), []) && Tokens(Symbols(Spaces(n), [])) == [] && WordEnds(Spaces(n), [])
  {
    SpacesFirst(n, [], []);
    assert Spaces(n) + [] == Spaces(n);
  }

  /** The arguments of a format: words of text, strings, blocks and percent signs,
      with any number of spaces around them. Text touching a directive belongs to the
      same argument, and an empty string or block still makes one. */
  lemma {:induction false} FormatMeans(line: seq<Spaced>, tail: nat)
    requires LineOk(line)
    ensures FormatOk(LineSpelling(line, tail), LineTaking(line))
    ensures Tokens(Symbols(LineSpelling(line, tail), LineTaking(line))) == LineMeaning(line)
    ensures line == [] || line[0].gap > 0 ==> WordEnds(LineSpelling(line, tail), LineTaking(line))
    decreases |line|
  {
    if line == [] {
      SpacesAlone(tail);
    } else {
      var rest, ps := line[1..], line[0].parts;
      assert forall i :: 0 <= i < |rest| ==> rest[i] == line[i + 1];
      FormatMeans(rest, tail);
      var f, ap := LineSpelling(rest, tail), LineTaking(rest);
      WordFirst(ps, f, ap);
      SpacesFirst(line[0].gap, PartsSpelling(ps) + f, PartsTaking(ps) + ap);
    }
  }

  /** A percent sign that ends the format stands for itself. */
  lemma LonePercent()
    ensures FormatOk(Ascii("%"), []) && Tokens(Symbols(Ascii("%"), [])) == [Ascii("%")]
  {
    var f := Ascii("%");
    assert f == [37] && f[1..] == [];
    assert Symbols(f, []) == [Piece([37])] + [];
    TokenEnds([37], []);
  }
}
