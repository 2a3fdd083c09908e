/** Encoding commands (hiredis.c): the length is computed first, the bytes are
    written afterwards, and three encoders agree on one array of bulk strings. */
module Commands {
  import opened Bytes
  import opened Decimal
  import opened SdsStrings
  import opened Resp

  /** A command on the wire is the array of its arguments as bulk strings. */
  function Strs(args: seq<seq<Byte>>): seq<Reply> {
    seq(|args|, i requires 0 <= i < |args| => Str(args[i]))
  }

  function Wire(args: seq<seq<Byte>>): seq<Byte> {
    Print(Array(Strs(args)))
  }

  /** The reader undoes every encoder, whatever follows the command. */
  lemma CommandParses(args: seq<seq<Byte>>, x: seq<Byte>)
    requires |args| <= INT_MAX && forall i :: 0 <= i < |args| ==> |args[i]| <= LLONG_MAX - 2
    ensures ParseReply(Wire(args) + x, 0) == Done(Array(Strs(args)), x)
  {
    PrintParse(Array(Strs(args)), 0, x);
  }

  /** No two argument lists share an encoding, and none is a prefix of another's. */
  lemma WireIsPrefixFree(args: seq<seq<Byte>>, args': seq<seq<Byte>>)
    requires |args| <= INT_MAX && forall i :: 0 <= i < |args| ==> |args[i]| <= LLONG_MAX - 2
    requires |args'| <= INT_MAX && forall i :: 0 <= i < |args'| ==> |args'[i]| <= LLONG_MAX - 2
    requires Wire(args) <= Wire(args')
    ensures args == args'
  {
    var x := Wire(args')[|Wire(args)|..];
    CommandParses(args, x);
    CommandParses(args', []);
    assert Wire(args) + x == Wire(args');
    assert Wire(args') + [] == Wire(args');
    StrsDiffer(args, args');
  }

  lemma StrsDiffer(args: seq<seq<Byte>>, args': seq<seq<Byte>>)
    requires Strs(args) == Strs(args')
    ensures args == args'
  {
    assert |args| == |Strs(args)| == |Strs(args')| == |args'|;
    forall i | 0 <= i < |args|
      ensures args[i] == args'[i]
    {
      assert Strs(args)[i] == Strs(args')[i];
    }
  }

  lemma {:induction false} PrintManyAppends(rs: seq<Reply>, r: Reply)
    ensures PrintMany(rs + [r]) == PrintMany(rs) + Print(r)
  {
    if rs == [] {
      assert rs + [r] == [r] && [r][1..] == [];
      assert PrintMany([r]) == Print(r) + PrintMany([]);
      assert Print(r) + [] == [] + Print(r) == Print(r);
    } else {
      PrintManyAppends(rs[1..], r);
      var all := rs + [r];
      assert all[0] == rs[0] && all[1..] == rs[1..] + [r];
      Assoc(Print(rs[0]), PrintMany(rs[1..]), Print(r));
    }
  }

  lemma NextBulk(args: seq<seq<Byte>>, j: nat)
    requires j < |args|
    ensures PrintMany(Strs(args[..j + 1])) == PrintMany(Strs(args[..j])) + Print(Str(args[j]))
  {
    assert Strs(args[..j + 1]) == Strs(args[..j]) + [Str(args[j])];
    PrintManyAppends(Strs(args[..j]), Str(args[j]));
  }

  /** bulklen: the size of a bulk string with its header and trailer. */
  method BulkLen(len: nat) returns (n: nat)
    ensures forall t: seq<Byte> :: |t| == len ==> |Print(Str(t))| == n
  {
    var digits := CountDigits(len);
    n := 1 + digits + 2 + len + 2;
  }

  /** The size computation at the head of the argv encoders. */
  method TotalLength(args: seq<seq<Byte>>) returns (totlen: nat)
    ensures totlen == |Wire(args)|
  {
    var digits := CountDigits(|args|);
    totlen := 1 + digits + 2;
    var j := 0;
    assert args[..0] == [] && Strs([]) == [];
    while j < |args|
      invariant 0 <= j <= |args|
      invariant totlen == 1 + |Dec(|args|)| + 2 + |PrintMany(Strs(args[..j]))|
    {
      NextBulk(args, j);
      var n := BulkLen(|args[j]|);
      totlen := totlen + n;
      j := j + 1;
    }
    assert args[..j] == args;
  }

  /** sprintf or memcpy at a position of the command buffer. */
  method WriteAt(cmd: array<Byte>, pos: nat, t: seq<Byte>) returns (next: nat)
    requires pos + |t| <= cmd.Length
    modifies cmd
    ensures next == pos + |t| && cmd[..next] == old(cmd[..pos]) + t
  {
    forall i | 0 <= i < |t| {
      cmd[pos + i] := t[i];
    }
    next := pos + |t|;
    assert forall i :: 0 <= i < |t| ==> cmd[pos + i] == t[i];
    assert cmd[pos..next] == t;
    assert cmd[..next] == cmd[..pos] + cmd[pos..next];
  }

  /** The encoding up to argument `j`. */
  function Upto(args: seq<seq<Byte>>, j: nat): seq<Byte>
    requires j <= |args|
  {
    [STAR] + Line(Dec(|args|)) + PrintMany(Strs(args[..j]))
  }

  lemma UptoEnds(args: seq<seq<Byte>>)
    ensures Upto(args, 0) == [STAR] + Dec(|args|) + CRLF
    ensures Upto(args, |args|) == Wire(args)
  {
    assert args[..0] == [] && Strs([]) == [];
    assert args[..|args|] == args;
  }

  lemma UptoGrows(args: seq<seq<Byte>>, j: nat)
    requires j < |args|
    ensures Upto(args, j + 1) == Upto(args, j) + Print(Str(args[j]))
  {
    NextBulk(args, j);
    var head := [STAR] + Line(Dec(|args|));
    assert head + (PrintMany(Strs(args[..j])) + Print(Str(args[j]))) == Upto(args, j) + Print(Str(args[j]));
  }

  /** What is written up to argument `j` fits in the whole. */
  lemma {:induction false} UptoFits(args: seq<seq<Byte>>, j: nat)
    requires j <= |args|
    ensures |Upto(args, j)| <= |Wire(args)|
    decreases |args| - j
  {
    if j < |args| {
      UptoGrows(args, j);
      UptoFits(args, j + 1);
    } else {
      UptoEnds(args);
    }
  }

  /** One bulk string: header, bytes, CR and LF. */
  method WriteBulk(cmd: array<Byte>, pos: nat, t: seq<Byte>) returns (next: nat)
    requires pos + |Print(Str(t))| <= cmd.Length
    modifies cmd
    ensures next == pos + |Print(Str(t))| && cmd[..next] == old(cmd[..pos]) + Print(Str(t))
  {
    next := WriteAt(cmd, pos, [DOLLAR] + Dec(|t|) + [CR, LF]);
    next := WriteAt(cmd, next, t);
    next := WriteAt(cmd, next, [CR, LF]);
  }

  /** The writing loop: a buffer of the precomputed size is filled exactly. */
  method Build(args: seq<seq<Byte>>, totlen: nat) returns (cmd: array<Byte>)
    requires totlen == |Wire(args)|
    ensures fresh(cmd) && cmd.Length == totlen + 1
    ensures cmd[..totlen] == Wire(args) && cmd[totlen] == NUL
  {
    cmd := new Byte[totlen + 1];
    UptoEnds(args);
    UptoFits(args, 0);
    var pos := WriteAt(cmd, 0, [STAR] + Dec(|args|) + [CR, LF]);
    var j := 0;
    while j < |args|
      invariant 0 <= j <= |args|
      invariant pos == |Upto(args, j)| < cmd.Length
      invariant cmd[..pos] == Upto(args, j)
    {
      UptoGrows(args, j);
      UptoFits(args, j + 1);
      pos := WriteBulk(cmd, pos, args[j]);
      j := j + 1;
    }
    assert pos == totlen;
    cmd[pos] := NUL;
  }

  // ----- Arguments as C passes them -----

  /** The bytes of a C string: those before the first NUL. */
  function CString(mem: seq<Byte>): (t: seq<Byte>)
    ensures |t| <= |mem| && t == mem[..|t|] && NUL !in t
    ensures NUL in mem ==> |t| < |mem| && mem[|t|] == NUL
  {
    if mem == [] || mem[0] == NUL then [] else [mem[0]] + CString(mem[1..])
  }

  /** argv and argvlen: explicit lengths, or C strings when there are none. */
  predicate ArgvOk(argv: seq<seq<Byte>>, argvlen: Option<seq<nat>>) {
    && |argv| <= INT_MAX
    && match argvlen
       case Some(lens) =>
         |lens| == |argv| && forall i :: 0 <= i < |argv| ==> lens[i] <= |argv[i]| && lens[i] <= ULLONG_MAX
       case None => forall i :: 0 <= i < |argv| ==> NUL in argv[i] && |argv[i]| <= ULLONG_MAX
  }

  function Args(argv: seq<seq<Byte>>, argvlen: Option<seq<nat>>): (args: seq<seq<Byte>>)
    requires ArgvOk(argv, argvlen)
    ensures |args| == |argv| && forall i :: 0 <= i < |args| ==> |args[i]| <= ULLONG_MAX
    ensures argvlen.Some? ==> forall i :: 0 <= i < |args| ==> args[i] == argv[i][..argvlen.value[i]]
    ensures argvlen.None? ==> forall i :: 0 <= i < |args| ==> args[i] + [0] <= argv[i] && 0 !in args[i]
  {
    seq(|argv|, i requires 0 <= i < |argv| =>
      if argvlen.Some? then argv[i][..argvlen.value[i]] else CString(argv[i]))
  }

  /** redisFormatCommandArgv. */
  method FormatCommandArgv(argv: seq<seq<Byte>>, argvlen: Option<seq<nat>>) returns (cmd: array<Byte>, totlen: nat)
    requires ArgvOk(argv, argvlen)
    ensures fresh(cmd) && cmd.Length == totlen + 1
    ensures cmd[..totlen] == Wire(Args(argv, argvlen)) && cmd[totlen] == NUL
  {
    var args := Args(argv, argvlen);
    totlen := TotalLength(args);
    cmd := Build(args, totlen);
  }

  /** A literal byte, a number directive with letter `d`, and the end of the line. */
  lemma NumberText(b: Byte, d: Byte, arg: FmtArg)
    requires b != NUL && b != PERCENT
    requires WantsSigned(d) ==> arg.SignedArg? && -LLONG_MAX <= arg.i <= LLONG_MAX
    requires WantsUnsigned(d) ==> arg.UnsignedArg? && arg.u <= ULLONG_MAX
    requires WantsSigned(d) || WantsUnsigned(d)
    ensures FmtOk([b, PERCENT, d, CR, LF], [arg])
    ensures FmtText([b, PERCENT, d, CR, LF], [arg]) == [b] + ArgText(arg) + CRLF
  {
    var f := [PERCENT, d, CR, LF];
    assert f[2..] == [CR, LF] && [arg][1..] == [];
    TailText();
    assert FmtOk(f, [arg]) && FmtText(f, [arg]) == ArgText(arg) + CRLF;
    LiteralText(b, f, [arg]);
    assert [b] + f == [b, PERCENT, d, CR, LF];
    Assoc([b], ArgText(arg), CRLF);
  }

  lemma LiteralText(b: Byte, fmt: seq<Byte>, args: seq<FmtArg>)
    requires b != NUL && b != PERCENT && FmtOk(fmt, args)
    ensures FmtOk([b] + fmt, args) && FmtText([b] + fmt, args) == [b] + FmtText(fmt, args)
  {
    assert ([b] + fmt)[1..] == fmt;
  }

  lemma TailText()
    ensures FmtOk([CR, LF], []) && FmtText([CR, LF], []) == CRLF
  {
    LiteralText(LF, [], []);
    assert [LF] + [] == [LF];
    LiteralText(CR, [LF], []);
    assert [CR] + [LF] == [CR, LF];
  }

  /** One bulk string through sdscatfmt and sdscatlen. */
  method CatBulk(cmd: Sds, t: seq<Byte>)
    requires cmd.Valid() && |t| <= ULLONG_MAX
    modifies cmd
    ensures cmd.Valid() && cmd.Contents() == old(cmd.Contents()) + Print(Str(t))
  {
    ghost var was := cmd.Contents();
    NumberText(DOLLAR, 84, UnsignedArg(|t|));
    cmd.CatFmt([DOLLAR, PERCENT, 84, CR, LF], [UnsignedArg(|t|)]);
    cmd.CatLen(t);
    cmd.CatLen([CR, LF]);
    assert was + ([DOLLAR] + Dec(|t|) + CRLF) + t + CRLF == was + Print(Str(t));
  }

  /** redisFormatSdsCommandArgv: the same bytes through sdscatfmt and sdscatlen. */
  method FormatSdsCommandArgv(argv: seq<seq<Byte>>, argvlen: Option<seq<nat>>) returns (cmd: Sds, totlen: nat)
    requires ArgvOk(argv, argvlen)
    ensures fresh(cmd) && cmd.Valid() && cmd.len == totlen
    ensures cmd.Contents() == Wire(Args(argv, argvlen))
  {
    var args := Args(argv, argvlen);
    totlen := TotalLength(args);
    UptoEnds(args);
    cmd := new Sds.Empty();
    cmd.MakeRoomFor(totlen);
    NumberText(STAR, 105, SignedArg(|args|));
    cmd.CatFmt([STAR, PERCENT, 105, CR, LF], [SignedArg(|args|)]);
    var j := 0;
    while j < |args|
      invariant 0 <= j <= |args| && fresh(cmd) && cmd.Valid()
      invariant cmd.Contents() == Upto(args, j)
    {
      UptoGrows(args, j);
      CatBulk(cmd, args[j]);
      j := j + 1;
    }
    assert cmd.len == totlen;
  }
}
