/** Simple dynamic strings (sds.c): a length, spare room, the bytes and a NUL after them. */
module SdsStrings {
  import opened Bytes
  import opened Decimal

  const SDS_MAX_PREALLOC: nat := 1024 * 1024

  /** The part of `s` between two inclusive indices; negative indices count from
      the end and are clamped to the first byte. */
  function Slice(s: seq<Byte>, start: int, end: int): (r: seq<Byte>)
    ensures 0 <= start <= |s| && end == -1 ==> r == s[start..]
  {
    var a := if start >= 0 then start else if |s| + start < 0 then 0 else |s| + start;
    var e := if end >= 0 then end else if |s| + end < 0 then 0 else |s| + end;
    if a > e || a >= |s| then [] else if e >= |s| then s[a..] else s[a..e + 1]
  }

  /** Arguments of sdscatfmt, in the order the directives take them. */
  datatype FmtArg = SignedArg(i: int) | UnsignedArg(u: nat) | TextArg(t: seq<Byte>)

  /** Directive letters: s S (text), i I (signed), u U T (unsigned). */
  predicate WantsText(b: Byte) { b == 115 || b == 83 }
  predicate WantsSigned(b: Byte) { b == 105 || b == 73 }
  predicate WantsUnsigned(b: Byte) { b == 117 || b == 85 || b == 84 }

  /** No argument is missing, of the wrong kind or out of range, and the format
      does not end in the middle of a directive. */
  predicate FmtOk(fmt: seq<Byte>, args: seq<FmtArg>) {
    if fmt == [] then true
    else if fmt[0] == NUL then false
    else if fmt[0] != PERCENT then FmtOk(fmt[1..], args)
    else if |fmt| < 2 || fmt[1] == NUL then false
    else if WantsText(fmt[1]) then args != [] && args[0].TextArg? && FmtOk(fmt[2..], args[1..])
    else if WantsSigned(fmt[1]) then
      args != [] && args[0].SignedArg? && -LLONG_MAX <= args[0].i <= LLONG_MAX && FmtOk(fmt[2..], args[1..])
    else if WantsUnsigned(fmt[1]) then
      args != [] && args[0].UnsignedArg? && args[0].u <= ULLONG_MAX && FmtOk(fmt[2..], args[1..])
    else FmtOk(fmt[2..], args)
  }

  function ArgText(a: FmtArg): seq<Byte> {
    match a
    case SignedArg(i) => Signed(i)
    case UnsignedArg(u) => Dec(u)
    case TextArg(t) => t
  }

  /** The text sdscatfmt appends: directives replaced by the text of their arguments. */
  function FmtText(fmt: seq<Byte>, args: seq<FmtArg>): seq<Byte>
    requires FmtOk(fmt, args)
  {
    if fmt == [] then []
    else if fmt[0] != PERCENT then [fmt[0]] + FmtText(fmt[1..], args)
    else if WantsText(fmt[1]) || WantsSigned(fmt[1]) || WantsUnsigned(fmt[1])
    then ArgText(args[0]) + FmtText(fmt[2..], args[1..])
    else [fmt[1]] + FmtText(fmt[2..], args)
  }

  /** The index arithmetic of sdsrange: where the kept bytes start and how many they are. */
  method RangeBounds(len: nat, start0: int, end0: int, ghost s: seq<Byte>) returns (start: int, newlen: int)
    requires len == |s| > 0
    ensures 0 <= newlen && (newlen != 0 ==> 0 <= start && start + newlen <= len)
    ensures Slice(s, start0, end0) == if newlen == 0 then [] else s[start..start + newlen]
  {
    var end := end0;
    start := start0;
    if start < 0 {
      start := len + start;
      if start < 0 { start := 0; }
    }
    if end < 0 {
      end := len + end;
      if end < 0 { end := 0; }
    }
    newlen := if start > end then 0 else end - start + 1;
    if newlen != 0 {
      if start >= len {
        newlen := 0;
      } else if end >= len {
        end := len - 1;
        newlen := if start > end then 0 else end - start + 1;
      }
    } else {
      start := 0;
    }
  }

  class Sds {
    /** The allocation: `len` bytes of text, the terminator, `free` spare bytes. */
    var buf: seq<Byte>
    var len: nat
    var free: nat

    ghost predicate Sized()
      reads this
    {
      |buf| == len + free + 1
    }

    ghost predicate Valid()
      reads this
    {
      Sized() && buf[len] == NUL
    }

    ghost function Contents(): seq<Byte>
      requires Sized()
      reads this
    {
      buf[..len]
    }

    /** sdsempty. */
    constructor Empty()
      ensures Valid() && Contents() == [] && len == free == 0
    {
      buf, len, free := [NUL], 0, 0;
    }

    /** sdsMakeRoomFor. What realloc puts in the new room is arbitrary. */
    method MakeRoomFor(addlen: nat)
      requires Sized()
      modifies this
      ensures Sized() && len == old(len) && free >= addlen
      ensures Contents() == old(Contents()) && buf[len] == old(buf[len])
      ensures old(free) >= addlen ==> buf == old(buf) && free == old(free)
      ensures old(free) < addlen ==>
                var need := len + addlen;
                len + free == if need < 1048576 then 2 * need else need + 1048576
    {
      if free >= addlen { return; }
      var newlen := len + addlen;
      if newlen < SDS_MAX_PREALLOC {
        newlen := newlen * 2;
      } else {
        newlen := newlen + SDS_MAX_PREALLOC;
      }
      var grow := newlen - len - free;
      assert |seq(grow, _ => NUL)| == grow;
      var room: seq<Byte> :| |room| == grow;
      buf := buf + room;
      free := newlen - len;
      assert buf[..len] == old(buf)[..len];
    }

    /** memcpy into the spare room, followed by the bookkeeping of `len` and `free`. */
    method Put(t: seq<Byte>)
      requires Sized() && |t| <= free
      modifies this
      ensures Sized() && Contents() == old(Contents()) + t
      ensures len == old(len) + |t| && free == old(free) - |t|
    {
      buf := buf[..len] + t + buf[len + |t|..];
      len, free := len + |t|, free - |t|;
    }

    /** sdscatlen. */
    method CatLen(t: seq<Byte>)
      requires Valid()
      modifies this
      ensures Valid() && Contents() == old(Contents()) + t
      ensures old(free) >= |t| ==> free == old(free) - |t|
    {
      MakeRoomFor(|t|);
      Put(t);
      buf := buf[len := NUL];
    }

    /** sdsrange. */
    method Range(start: int, end: int)
      requires Valid()
      modifies this
      ensures Valid() && Contents() == Slice(old(Contents()), start, end)
      ensures len + free == old(len + free)
    {
      if len == 0 { return; }
      var from, newlen := RangeBounds(len, start, end, Contents());
      ghost var kept := Slice(Contents(), start, end);
      if newlen != 0 {
        SliceOfSlice(buf, 0, len, from, from + newlen);
      }
      if from != 0 && newlen != 0 {
        buf := buf[from..from + newlen] + buf[newlen..];
      }
      assert buf[..newlen] == kept;
      buf := buf[newlen := NUL];
      free := free + (len - newlen);
      len := newlen;
    }

    /** The room check and copy shared by the argument directives of sdscatfmt. */
    method CatArg(next: Byte, arg: FmtArg)
      requires Sized()
      requires WantsText(next) ==> arg.TextArg?
      requires WantsSigned(next) ==> arg.SignedArg? && -LLONG_MAX <= arg.i <= LLONG_MAX
      requires WantsUnsigned(next) ==> arg.UnsignedArg? && arg.u <= ULLONG_MAX
      requires WantsText(next) || WantsSigned(next) || WantsUnsigned(next)
      modifies this
      ensures Sized() && Contents() == old(Contents()) + ArgText(arg)
    {
      var t;
      if WantsText(next) {
        t := arg.t;
      } else {
        var text := new Byte[SDS_LLSTR_SIZE];
        var l;
        if WantsSigned(next) {
          l := Ll2Str(text, arg.i);
        } else {
          l := Ull2Str(text, arg.u);
        }
        t := text[..l];
      }
      if free < |t| {
        MakeRoomFor(|t|);
      }
      Put(t);
    }

    /** One turn of sdscatfmt: a literal byte or a directive. */
    method CatOne(f: seq<Byte>, ap: seq<FmtArg>) returns (f': seq<Byte>, ap': seq<FmtArg>, ghost piece: seq<Byte>)
      requires Sized() && f != [] && FmtOk(f, ap)
      modifies this
      ensures Sized() && FmtOk(f', ap') && |f'| < |f|
      ensures FmtText(f, ap) == piece + FmtText(f', ap') && Contents() == old(Contents()) + piece
    {
      if free == 0 {
        MakeRoomFor(1);
      }
      if f[0] == PERCENT {
        var next := f[1];
        if WantsText(next) || WantsSigned(next) || WantsUnsigned(next) {
          CatArg(next, ap[0]);
          return f[2..], ap[1..], ArgText(ap[0]);
        }
        Put([next]);
        return f[2..], ap, [next];
      }
      Put([f[0]]);
      return f[1..], ap, [f[0]];
    }

    /** sdscatfmt: one pass over the format, writing directly behind the text. */
    method CatFmt(fmt: seq<Byte>, args: seq<FmtArg>)
      requires Valid() && FmtOk(fmt, args)
      modifies this
      ensures Valid() && Contents() == old(Contents()) + FmtText(fmt, args)
    {
      ghost var whole := Contents() + FmtText(fmt, args);
      var f, ap := fmt, args;
      while f != []
        invariant Sized() && FmtOk(f, ap)
        invariant Contents() + FmtText(f, ap) == whole
        decreases |f|
      {
        ghost var done := Contents();
        ghost var piece;
        f, ap, piece := CatOne(f, ap);
        Assoc(done, piece, FmtText(f, ap));
      }
      assert Contents() + [] == Contents();
      buf := buf[len := NUL];
    }
  }
}
