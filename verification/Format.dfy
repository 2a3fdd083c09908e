/** redisvFormatCommand (hiredis.c) on formats built from literal text, spaces,
    %s, %b and %%, against a simple tokeniser. */
module Formats {
  import opened Bytes
  import opened Decimal
  import opened Resp
  import opened Commands

  /** One element of the variable argument list. */
  datatype VArg = Pointer(mem: seq<Byte>) | Size(n: nat)

  const LETTER_S: Byte := 115
  const LETTER_B: Byte := 98

  /** What a format says, symbol by symbol. */
  datatype Symbol = Gap | Piece(text: seq<Byte>)

  /** A byte that stands for itself; a percent sign at the very end does too. */
  predicate Literal(format: seq<Byte>)
    requires format != []
  {
    format[0] != PERCENT || |format| == 1
  }

  /** A C string without other directives, with the arguments it asks for. */
  predicate FormatOk(format: seq<Byte>, ap: seq<VArg>) {
    if format == [] then true
    else if format[0] == NUL then false
    else if Literal(format) then FormatOk(format[1..], ap)
    else if format[1] == LETTER_S then
      ap != [] && ap[0].Pointer? && NUL in ap[0].mem && FormatOk(format[2..], ap[1..])
    else if format[1] == LETTER_B then
      |ap| >= 2 && ap[0].Pointer? && ap[1].Size? && ap[1].n <= |ap[0].mem| && FormatOk(format[2..], ap[2..])
    else format[1] == PERCENT && FormatOk(format[2..], ap)
  }

  function Symbols(format: seq<Byte>, ap: seq<VArg>): seq<Symbol>
    requires FormatOk(format, ap)
  {
    if format == [] then []
    else if Literal(format) then
      [if format[0] == SPACE then Gap else Piece([format[0]])] + Symbols(format[1..], ap)
    else if format[1] == LETTER_S then [Piece(CString(ap[0].mem))] + Symbols(format[2..], ap[1..])
    else if format[1] == LETTER_B then [Piece(ap[0].mem[..ap[1].n])] + Symbols(format[2..], ap[2..])
    else [Piece([PERCENT])] + Symbols(format[2..], ap)
  }

  /** The number of pieces before the first gap. */
  function RunLength(syms: seq<Symbol>): (n: nat)
    ensures n <= |syms| && (forall i :: 0 <= i < n ==> syms[i].Piece?) && (n < |syms| ==> syms[n].Gap?)
  {
    if syms == [] || syms[0].Gap? then 0 else 1 + RunLength(syms[1..])
  }

  function Joined(pieces: seq<Symbol>): seq<Byte>
    requires forall i :: 0 <= i < |pieces| ==> pieces[i].Piece?
  {
    if pieces == [] then [] else pieces[0].text + Joined(pieces[1..])
  }

  /** The tokeniser: arguments are the maximal runs of pieces between gaps. */
  function Tokens(syms: seq<Symbol>): seq<seq<Byte>>
    decreases |syms|
  {
    if syms == [] then []
    else if syms[0].Gap? then Tokens(syms[1..])
    else
      var n := RunLength(syms);
      [Joined(syms[..n])] + Tokens(syms[n..])
  }

  /** A piece in front of a run belongs to the run. */
  lemma LongerRun(a: seq<Byte>, rest: seq<Symbol>)
    ensures var s, n := [Piece(a)] + rest, RunLength(rest);
            RunLength(s) == n + 1 && s[n + 1..] == rest[n..] && Joined(s[..n + 1]) == a + Joined(rest[..n])
  {
    var s, n := [Piece(a)] + rest, RunLength(rest);
    TakeDrop([Piece(a)], rest);
    assert RunLength(s) == n + 1;
    assert s[..n + 1][1..] == rest[..n];
  }

  /** The first token of a line that starts with a piece. */
  lemma FirstToken(a: seq<Byte>, rest: seq<Symbol>)
    ensures var n := RunLength(rest);
            Tokens([Piece(a)] + rest) == [a + Joined(rest[..n])] + Tokens(rest[n..])
  {
    LongerRun(a, rest);
  }

  lemma TokensMerge(a: seq<Byte>, b: seq<Byte>, rest: seq<Symbol>)
    ensures Tokens([Piece(a)] + ([Piece(b)] + rest)) == Tokens([Piece(a + b)] + rest)
  {
    var t, n := [Piece(b)] + rest, RunLength(rest);
    FirstToken(a, t);
    FirstToken(a + b, rest);
    LongerRun(b, rest);
    Assoc(a, b, Joined(rest[..n]));
  }

  lemma TokenEnds(a: seq<Byte>, rest: seq<Symbol>)
    requires rest == [] || rest[0].Gap?
    ensures Tokens([Piece(a)] + rest) == [a] + Tokens(rest)
  {
    var s := [Piece(a)] + rest;
    assert s[1..] == rest && RunLength(s) == 1;
    assert s[..1][1..] == [];
    assert Joined(s[..1]) == a + Joined([]) == a + [] == a;
  }

  /** The part of the scan the loop still has to account for. */
  function Pending(touched: bool, curarg: seq<Byte>, rest: seq<Symbol>): seq<seq<Byte>> {
    Tokens(if touched then [Piece(curarg)] + rest else rest)
  }

  lemma PendingPiece(touched: bool, curarg: seq<Byte>, t: seq<Byte>, rest: seq<Symbol>)
    requires !touched ==> curarg == []
    ensures Pending(touched, curarg, [Piece(t)] + rest) == Pending(true, curarg + t, rest)
  {
    if touched {
      TokensMerge(curarg, t, rest);
    } else {
      assert curarg + t == t;
    }
  }

  lemma PendingGap(touched: bool, curarg: seq<Byte>, rest: seq<Symbol>)
    requires !touched ==> curarg == []
    ensures Pending(touched, curarg, [Gap] + rest) == (if touched then [curarg] else []) + Pending(false, [], rest)
  {
    assert ([Gap] + rest)[1..] == rest;
    assert Tokens([Gap] + rest) == Tokens(rest);
    if touched {
      TokenEnds(curarg, [Gap] + rest);
    }
  }

  lemma PendingEnd(touched: bool, curarg: seq<Byte>)
    ensures Pending(touched, curarg, []) == if touched then [curarg] else []
  {
    if touched {
      TokenEnds(curarg, []);
      assert Tokens([]) == [];
    }
  }

  /** The length of an encoding without its header: what totlen counts while scanning. */
  function BulkSum(args: seq<seq<Byte>>): nat {
    |PrintMany(Strs(args))|
  }

  lemma BulkSumGrows(args: seq<seq<Byte>>, t: seq<Byte>)
    ensures BulkSum(args + [t]) == BulkSum(args) + |Print(Str(t))|
  {
    assert Strs(args + [t]) == Strs(args) + [Str(t)];
    PrintManyAppends(Strs(args), Str(t));
  }

  /** The text a directive stands for and the arguments it leaves, as the switch
      of redisvFormatCommand takes them. */
  method Directive(c: seq<Byte>, ap: seq<VArg>) returns (arg: seq<Byte>, ap': seq<VArg>)
    requires FormatOk(c, ap) && c != [] && !Literal(c)
    ensures FormatOk(c[2..], ap') && Symbols(c, ap) == [Piece(arg)] + Symbols(c[2..], ap')
  {
    if c[1] == LETTER_S {
      arg, ap' := CString(ap[0].mem), ap[1..];
    } else if c[1] == LETTER_B {
      arg, ap' := ap[0].mem[..ap[1].n], ap[2..];
    } else {
      arg, ap' := [PERCENT], ap;
    }
  }

  /** Put the current argument, if there is one, into the vector and count its bytes. */
  method PushArg(argv: seq<seq<Byte>>, totlen: nat, touched: bool, curarg: seq<Byte>)
    returns (argv': seq<seq<Byte>>, totlen': nat)
    requires totlen == BulkSum(argv)
    ensures argv' == argv + (if touched then [curarg] else []) && totlen' == BulkSum(argv')
  {
    if !touched { return argv, totlen; }
    BulkSumGrows(argv, curarg);
    var n := BulkLen(|curarg|);
    argv', totlen' := argv + [curarg], totlen + n;
  }

  /** One byte that stands for itself: a space ends the current argument, any
      other byte goes on with it. */
  method TakeByte(b: Byte, argv: seq<seq<Byte>>, totlen: nat, touched: bool, curarg: seq<Byte>, ghost rest: seq<Symbol>)
    returns (argv': seq<seq<Byte>>, totlen': nat, touched': bool, curarg': seq<Byte>)
    requires totlen == BulkSum(argv) && (!touched ==> curarg == [])
    ensures totlen' == BulkSum(argv') && (!touched' ==> curarg' == [])
    ensures var sym := if b == SPACE then Gap else Piece([b]);
            argv' + Pending(touched', curarg', rest) == argv + Pending(touched, curarg, [sym] + rest)
  {
    if b == SPACE {
      PendingGap(touched, curarg, rest);
      argv', totlen' := PushArg(argv, totlen, touched, curarg);
      Assoc(argv, if touched then [curarg] else [], Pending(false, [], rest));
      return argv', totlen', false, [];
    }
    PendingPiece(touched, curarg, [b], rest);
    return argv, totlen, true, curarg + [b];
  }

  /** The scanning loop: the arguments of a format and the bytes their encoding takes. */
  method Scan(format: seq<Byte>, ap0: seq<VArg>) returns (argv: seq<seq<Byte>>, totlen: nat)
    requires FormatOk(format, ap0)
    ensures argv == Tokens(Symbols(format, ap0)) && totlen == BulkSum(argv)
  {
    var c, ap := format, ap0;
    var curarg, touched := [], false;
    argv, totlen := [], 0;
    ghost var whole := Tokens(Symbols(format, ap0));
    assert Strs([]) == [] && [] + whole == whole;
    while c != []
      invariant FormatOk(c, ap)
      invariant !touched ==> curarg == []
      invariant argv + Pending(touched, curarg, Symbols(c, ap)) == whole
      invariant totlen == BulkSum(argv)
      decreases |c|
    {
      if Literal(c) {
        argv, totlen, touched, curarg := TakeByte(c[0], argv, totlen, touched, curarg, Symbols(c[1..], ap));
        c := c[1..];
      } else {
        var arg, ap' := Directive(c, ap);
        PendingPiece(touched, curarg, arg, Symbols(c[2..], ap'));
        curarg, touched := curarg + arg, true;
        c, ap := c[2..], ap';
      }
    }
    PendingEnd(touched, curarg);
    argv, totlen := PushArg(argv, totlen, touched, curarg);
  }

  /** redisvFormatCommand: the encoding of the tokens, in a buffer whose size was
      known before the first byte was written. */
  method VFormatCommand(format: seq<Byte>, ap: seq<VArg>) returns (cmd: array<Byte>, totlen: nat)
    requires FormatOk(format, ap)
    ensures fresh(cmd) && cmd.Length == totlen + 1
    ensures cmd[..totlen] == Wire(Tokens(Symbols(format, ap))) && cmd[totlen] == NUL
  {
    var argv;
    argv, totlen := Scan(format, ap);
    var digits := CountDigits(|argv|);
    totlen := totlen + 1 + digits + 2;
    cmd := Build(argv, totlen);
  }

  /** Formats and argument vectors agree: "%b %b ... %b" encodes its arguments. */
  function Blobs(args: seq<seq<Byte>>): seq<Byte> {
    if args == [] then []
    else if |args| == 1 then [PERCENT, LETTER_B]
    else [PERCENT, LETTER_B, SPACE] + Blobs(args[1..])
  }

  function BlobArgs(args: seq<seq<Byte>>): seq<VArg> {
    if args == [] then [] else [Pointer(args[0]), Size(|args[0]|)] + BlobArgs(args[1..])
  }

  /** A blob directive, and what follows it. */
  lemma BlobFirst(t: seq<Byte>, f: seq<Byte>, ap: seq<VArg>)
    requires FormatOk(f, ap) && (f == [] || f[0] == SPACE)
    ensures FormatOk([PERCENT, LETTER_B] + f, [Pointer(t), Size(|t|)] + ap)
    ensures Tokens(Symbols([PERCENT, LETTER_B] + f, [Pointer(t), Size(|t|)] + ap)) == [t] + Tokens(Symbols(f, ap))
  {
    var f', ap' := [PERCENT, LETTER_B] + f, [Pointer(t), Size(|t|)] + ap;
    assert f'[2..] == f && ap'[2..] == ap && t[..|t|] == t;
    assert Symbols(f', ap') == [Piece(t)] + Symbols(f, ap);
    TokenEnds(t, Symbols(f, ap));
  }

  lemma SpaceFirst(f: seq<Byte>, ap: seq<VArg>)
    requires FormatOk(f, ap)
    ensures FormatOk([SPACE] + f, ap) && Tokens(Symbols([SPACE] + f, ap)) == Tokens(Symbols(f, ap))
  {
    assert ([SPACE] + f)[1..] == f;
    assert Symbols([SPACE] + f, ap) == [Gap] + Symbols(f, ap);
    assert ([Gap] + Symbols(f, ap))[1..] == Symbols(f, ap);
  }

  lemma {:induction false} BlobsTokenise(args: seq<seq<Byte>>)
    ensures FormatOk(Blobs(args), BlobArgs(args))
    ensures Tokens(Symbols(Blobs(args), BlobArgs(args))) == args
  {
    if args != [] {
      var t, rest := args[0], args[1..];
      BlobsTokenise(rest);
      assert args == [t] + rest;
      if |args| == 1 {
        assert Blobs(args) == [PERCENT, LETTER_B] + [];
        BlobFirst(t, [], BlobArgs(rest));
      } else {
        assert Blobs(args) == [PERCENT, LETTER_B] + ([SPACE] + Blobs(rest));
        SpaceFirst(Blobs(rest), BlobArgs(rest));
        BlobFirst(t, [SPACE] + Blobs(rest), BlobArgs(rest));
      }
    }
  }
}
