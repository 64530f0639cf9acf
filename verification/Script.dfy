/** Byte strings of scripts, src/script/Script.hpp and FindAndDelete of src/script/Interpreter.cpp. */
module Script {
  import opened ByteTypes
  import N = ScriptNum

  const OP_PUSHDATA1 := 0x4c
  const OP_PUSHDATA2 := 0x4d
  const OP_PUSHDATA4 := 0x4e
  const OP_INVALIDOPCODE := 0xff

  /** (unsigned int) of a length. */
  const WIDTH := 0x1_0000_0000

  // ---------------------------------------------------------------- reading one instruction

  /** One instruction read from the front, or a refusal. */
  datatype Read = Refused | Read(opcode: octet, data: seq<octet>, rest: seq<octet>)

  function LE16(s: seq<octet>): (r: nat)
    requires |s| >= 2
  {
    var a: int, b: int := s[0], s[1];
    a + 0x100 * b
  }

  function LE32(s: seq<octet>): (r: nat)
    requires |s| >= 4
  {
    var a: int, b: int, c: int, d: int := s[0], s[1], s[2], s[3];
    a + 0x100 * b + 0x1_0000 * c + 0x100_0000 * d
  }

  /** How many bytes follow the opcode to say how much data there is. */
  function SizeBytes(opcode: octet): (r: nat) {
    if opcode == OP_PUSHDATA1 then 1 else if opcode == OP_PUSHDATA2 then 2 else if opcode == OP_PUSHDATA4 then 4 else 0
  }

  function SizeAt(opcode: octet, s: seq<octet>): (r: nat)
    requires |s| >= SizeBytes(opcode)
  {
    if opcode < OP_PUSHDATA1 then opcode
    else if opcode == OP_PUSHDATA1 then s[0]
    else if opcode == OP_PUSHDATA2 then LE16(s)
    else if opcode == OP_PUSHDATA4 then LE32(s)
    else 0
  }

  /** The number of bytes left is compared as a 32-bit number. */
  function Next(s: seq<octet>): (r: Read)
    ensures r.Read? ==> |r.rest| < |s| && s[|s| - |r.rest|..] == r.rest
  {
    if s == [] then Refused
    else
      var opcode := s[0];
      var k := SizeBytes(opcode);
      if opcode > OP_PUSHDATA4 then Read(opcode, [], s[1..])
      else if |s| - 1 < k then Refused
      else
        var n := SizeAt(opcode, s[1..]);
        var body := s[1 + k..];
        if |body| % WIDTH < n then Refused else Read(opcode, body[..n], body[n..])
  }

  // ---------------------------------------------------------------- building and reading back

  /** What operator<< is given: data to push, or an opcode. */
  datatype Item = Push(data: seq<octet>) | Code(opcode: octet)

  function Header(n: nat): (r: seq<octet>) {
    if n < OP_PUSHDATA1 then [n]
    else if n <= 0xff then [OP_PUSHDATA1, n]
    else if n <= 0xffff then [OP_PUSHDATA2, n % 0x100, n / 0x100]
    else [OP_PUSHDATA4, n % 0x100, n / 0x100 % 0x100, n / 0x1_0000 % 0x100, n / 0x100_0000 % 0x100]
  }

  function Emit(item: Item): (r: seq<octet>) {
    match item
    case Push(data) => Header(|data|) + data
    case Code(opcode) => [opcode]
  }

  function Build(items: seq<Item>): (r: seq<octet>) {
    if items == [] then [] else Emit(items[0]) + Build(items[1..])
  }

  /** Each operator<< appends, so that what was built grows by one item. */
  lemma {:induction false} BuildAppends(items: seq<Item>, item: Item)
    ensures Build(items + [item]) == Build(items) + Emit(item)
  {
    hide Emit;
    if items == [] {
      assert (items + [item])[1..] == [];
    } else {
      assert (items + [item])[1..] == items[1..] + [item];
      BuildAppends(items[1..], item);
    }
  }

  /** Pushes are below 2^32 bytes, and opcodes are not pushes themselves. */
  predicate Writable(items: seq<Item>) {
    forall k | 0 <= k < |items| ::
      match items[k] case Push(data) => |data| < WIDTH case Code(opcode) => opcode > OP_PUSHDATA4
  }

  function ItemOf(opcode: octet, data: seq<octet>): (r: Item) {
    if opcode <= OP_PUSHDATA4 then Push(data) else Code(opcode)
  }

  /** The instructions read one after the other, and whether the end was reached. */
  function ReadAll(s: seq<octet>): (r: (seq<Item>, bool))
    decreases |s|
  {
    match Next(s)
    case Refused => ([], s == [])
    case Read(opcode, data, rest) =>
      var (items, all) := ReadAll(rest);
      ([ItemOf(opcode, data)] + items, all)
  }

  /** No push is misjudged because the bytes left do not fit 32 bits. */
  predicate Countable(items: seq<Item>) {
    items == [] || (
      && Countable(items[1..])
      && (items[0].Push? ==> (|items[0].data| + |Build(items[1..])|) % WIDTH >= |items[0].data|))
  }

  lemma LE32Bytes(n: nat)
    requires n < WIDTH
    ensures n % 0x100 + 0x100 * (n / 0x100 % 0x100) + 0x1_0000 * (n / 0x1_0000 % 0x100) +
      0x100_0000 * (n / 0x100_0000 % 0x100) == n
  {
  }

  /** The bytes in front of pushed data: its size alone up to 75, else one of three opcodes and the size
      in one, two or four bytes, the low one first. */
  lemma PushForms(data: seq<octet>)
    requires |data| < WIDTH
    ensures var e, n := Emit(Push(data)), |data|;
      var k := |e| - n;
      && k == (if n <= 75 then 1 else if n <= 0xff then 2 else if n <= 0xffff then 3 else 5) && e[k..] == data
      && e[0] == (if k == 1 then n else if k == 2 then 0x4c else if k == 3 then 0x4d else 0x4e)
      && (k > 1 ==> N.Magnitude(e[1..k]) == n)
  {
    hide N.Magnitude;
    var e, n := Emit(Push(data)), |data|;
    var k := |e| - n;
    assert e[..k] == Header(n) && e[1..k] == Header(n)[1..];
    if k > 1 {
      SizeRead(n);
    }
  }

  lemma SizeRead(n: nat)
    requires OP_PUSHDATA1 <= n < WIDTH
    ensures N.Magnitude(Header(n)[1..]) == n
  {
    hide N.Magnitude;
    var s := Header(n)[1..];
    N.MagnitudeStep(s);
    N.MagnitudeStep(s[1..]);
    if |s| > 1 {
      assert s[1..][1..] == s[2..];
      N.MagnitudeStep(s[2..]);
    }
    if |s| > 2 {
      assert s[2..][1..] == s[3..] && s[3..][1..] == s[4..];
      N.MagnitudeStep(s[3..]);
      N.MagnitudeStep(s[4..]);
      LE32Bytes(n);
    }
  }

  lemma NextOfPush(data: seq<octet>, rest: seq<octet>)
    requires |data| < WIDTH
    ensures var r := Next(Emit(Push(data)) + rest);
      if (|data| + |rest|) % WIDTH >= |data| then
        r.Read? && r.opcode <= OP_PUSHDATA4 && r.data == data && r.rest == rest
      else r.Refused?
  {
    hide Header, SizeAt, SizeBytes;
    var n, s := |data|, Emit(Push(data)) + rest;
    var h := Header(n);
    HeaderTells(n, data + rest);
    assert s == h + (data + rest) && s[0] == h[0];
    assert s[|h|..] == data + rest;
    assert s[1..] == h[1..] + (data + rest);
    assert (data + rest)[..n] == data && (data + rest)[n..] == rest;
  }

  lemma HeaderTells(n: nat, after: seq<octet>)
    requires n < WIDTH
    ensures var h := Header(n);
      h != [] && h[0] <= OP_PUSHDATA4 && |h| == 1 + SizeBytes(h[0]) && SizeAt(h[0], h[1..] + after) == n
  {
    LE32Bytes(n);
  }

  /** A script built from pushes and opcodes is read back as that list exactly when every push is
      countable. */
  lemma {:induction false} ReadAllOfBuild(items: seq<Item>)
    requires Writable(items)
    ensures ReadAll(Build(items)) == (items, true) <==> Countable(items)
  {
    hide Next, Emit, ReadAll;
    if items == [] {
      NextOfNothing();
      ReadStep([]);
    } else {
      var item, rest := items[0], Build(items[1..]);
      assert items == [item] + items[1..];
      ReadAllOfBuild(items[1..]);
      EmitNonEmpty(item);
      ReadStep(Emit(item) + rest);
      if item.Push? {
        NextOfPush(item.data, rest);
      } else {
        NextOfCode(item.opcode, rest);
      }
    }
  }

  lemma ReadStep(s: seq<octet>)
    ensures var r := Next(s);
      ReadAll(s) ==
        if r.Refused? then ([], s == []) else ([ItemOf(r.opcode, r.data)] + ReadAll(r.rest).0, ReadAll(r.rest).1)
  {
    hide Next;
  }

  lemma NextOfNothing()
    ensures Next([]) == Refused
  {
  }

  lemma NextOfCode(opcode: octet, rest: seq<octet>)
    requires opcode > OP_PUSHDATA4
    ensures Next(Emit(Code(opcode)) + rest) == Read(opcode, [], rest)
  {
  }

  lemma EmitNonEmpty(item: Item)
    ensures Emit(item) != []
  {
  }

  /** Any script below 2^32 bytes is countable. */
  lemma {:induction false} ShortIsCountable(items: seq<Item>)
    requires |Build(items)| < WIDTH
    ensures Countable(items)
  {
    if items != [] {
      ShortIsCountable(items[1..]);
    }
  }

  /** A script that is not: one byte pushed in front of 2^32 - 1 bytes. */
  lemma LongIsRefused(zeroes: seq<octet>)
    requires |zeroes| == WIDTH - 6
    ensures var items := [Push([0]), Push(zeroes)]; Writable(items) && ReadAll(Build(items)) == ([], false)
  {
    hide Next, Emit;
    var items := [Push([0]), Push(zeroes)];
    assert items[1..] == [Push(zeroes)] && items[1..][1..] == [];
    assert Build(items[1..]) == Emit(Push(zeroes)) + [];
    LongEmit(zeroes);
    EmitNonEmpty(Push([0]));
    NextOfPush([0], Build(items[1..]));
  }

  lemma LongEmit(data: seq<octet>)
    requires |data| > 0xffff
    ensures |Emit(Push(data))| == |data| + 5
  {
  }

  // ---------------------------------------------------------------- the code

  class Script {
    var bytes: seq<octet>

    constructor ()
      ensures bytes == []
    {
      bytes := [];
    }

    /** The opcode and size in front of the data; the longest form writes the size modulo 2^32. */
    method PushSize(n: nat)
      modifies this
      ensures bytes == old(bytes) + Header(n)
    {
      if n < OP_PUSHDATA1 {
        bytes := bytes + [n];
      } else if n <= 0xff {
        bytes := bytes + [OP_PUSHDATA1, n];
      } else if n <= 0xffff {
        bytes := bytes + [OP_PUSHDATA2, n % 0x100, n / 0x100];
      } else {
        bytes := bytes + [OP_PUSHDATA4, n % 0x100, n / 0x100 % 0x100, n / 0x1_0000 % 0x100, n / 0x100_0000 % 0x100];
      }
    }

    /** operator<< for bytes. */
    method PushData(data: seq<octet>)
      modifies this
      ensures bytes == old(bytes) + Emit(Push(data))
    {
      hide Header;
      PushSize(|data|);
      bytes := bytes + data;
    }

    /** operator<< for an opcode; what is not one is thrown out. */
    method PushOpcode(opcode: int) returns (ok: bool)
      modifies this
      ensures ok <==> 0 <= opcode <= OP_INVALIDOPCODE
      ensures bytes == if ok then old(bytes) + Emit(Code(opcode)) else old(bytes)
    {
      if opcode < 0 || opcode > OP_INVALIDOPCODE {
        return false;
      }
      bytes := bytes + [opcode];
      return true;
    }

    /** The immediate operand's size: in the opcode, or in the 1, 2 or 4 bytes after it. */
    method ReadSize(op: octet, pc: nat) returns (ok: bool, pc': nat, size: nat)
      requires pc <= |bytes| && op <= OP_PUSHDATA4
      ensures pc <= pc' <= |bytes|
      ensures ok <==> |bytes| - pc >= SizeBytes(op)
      ensures ok ==> pc' == pc + SizeBytes(op) && size == SizeAt(op, bytes[pc..])
    {
      ok, pc', size := false, pc, 0;
      if op < OP_PUSHDATA1 {
        size := op;
      } else if op == OP_PUSHDATA1 {
        if |bytes| - pc < 1 {
          return;
        }
        size := bytes[pc];
        pc' := pc + 1;
      } else if op == OP_PUSHDATA2 {
        if |bytes| - pc < 2 {
          return;
        }
        size := LE16(bytes[pc..]);
        pc' := pc + 2;
      } else if op == OP_PUSHDATA4 {
        if |bytes| - pc < 4 {
          return;
        }
        size := LE32(bytes[pc..]);
        pc' := pc + 4;
      }
      ok := true;
    }

    /** GetScriptOp over [pc, end). On a refusal the iterator has moved past what was looked at. */
    method GetOp(pc: nat) returns (ok: bool, pc': nat, opcode: octet, data: seq<octet>)
      requires pc <= |bytes|
      ensures pc <= pc' <= |bytes|
      ensures ok <==> Next(bytes[pc..]).Read?
      ensures ok ==> Next(bytes[pc..]) == Read(opcode, data, bytes[pc'..])
      ensures !ok ==> opcode == OP_INVALIDOPCODE && data == []
    {
      hide SizeAt, SizeBytes;
      ok, pc', opcode, data := false, pc, OP_INVALIDOPCODE, [];
      ghost var s := bytes[pc..];
      if pc' >= |bytes| {
        return;
      }
      var op := bytes[pc'];
      pc' := pc' + 1;
      assert bytes[pc'..] == s[1..];
      if op <= OP_PUSHDATA4 {
        var read, size;
        ghost var start := pc';
        read, pc', size := ReadSize(op, pc');
        if !read {
          return;
        }
        assert bytes[pc'..] == s[1 + SizeBytes(op)..];
        if (|bytes| - pc') % WIDTH < size {
          return;
        }
        data := bytes[pc'..pc' + size];
        pc' := pc' + size;
      }
      ok, opcode := true, op;
    }
  }

  // ---------------------------------------------------------------- FindAndDelete

  /** What becomes of the parts of a script: an instruction that stays, or a copy of the needle that goes. */
  datatype Piece = Kept(bytes: seq<octet>) | Cut

  /** A copy of the needle that ends before the script does. */
  predicate Starts(s: seq<octet>, needle: seq<octet>) {
    |needle| < |s| && s[..|needle|] == needle
  }

  /** From one instruction boundary to the next. The last piece is what cannot be read, if only the
      empty end. */
  function Pieces(s: seq<octet>, needle: seq<octet>): (r: seq<Piece>)
    requires needle != []
    ensures r != []
    decreases |s|
  {
    if Starts(s, needle) then [Cut] + Pieces(s[|needle|..], needle)
    else
      match Next(s)
      case Refused => [Kept(s)]
      case Read(_, _, rest) => [Kept(s[..|s| - |rest|])] + Pieces(rest, needle)
  }

  /** The script the pieces make up. */
  function Whole(p: seq<Piece>, needle: seq<octet>): (r: seq<octet>) {
    if p == [] then [] else (match p[0] case Kept(b) => b case Cut => needle) + Whole(p[1..], needle)
  }

  /** What stays of it. */
  function Remains(p: seq<Piece>): (r: seq<octet>) {
    if p == [] then [] else (match p[0] case Kept(b) => b case Cut => []) + Remains(p[1..])
  }

  function Cuts(p: seq<Piece>): (r: nat) {
    if p == [] then 0 else (if p[0].Cut? then 1 else 0) + Cuts(p[1..])
  }

  /** The pieces are the script, cut at instruction boundaries: every piece that stays, except the
      last, is exactly one instruction at which no copy of the needle starts. */
  lemma {:induction false} PiecesMakeUp(s: seq<octet>, needle: seq<octet>)
    requires needle != []
    ensures Whole(Pieces(s, needle), needle) == s
    decreases |s|
  {
    hide Next;
    if Starts(s, needle) {
      PiecesMakeUp(s[|needle|..], needle);
    } else {
      match Next(s)
      case Refused =>
      case Read(_, _, rest) => PiecesMakeUp(rest, needle);
    }
  }

  predicate OneInstruction(b: seq<octet>, after: seq<octet>) {
    var r := Next(b + after);
    r.Read? && r.rest == after
  }

  lemma {:induction false} CutAtBoundaries(s: seq<octet>, needle: seq<octet>, k: nat)
    requires needle != [] && k < |Pieces(s, needle)|
    ensures var p := Pieces(s, needle); var here, after := Whole(p[k..], needle), Whole(p[k + 1..], needle);
      && (p[k].Cut? <==> Starts(here, needle))
      && (p[k].Kept? && k + 1 < |p| ==> OneInstruction(p[k].bytes, after))
      && (k + 1 == |p| ==> p[k].Kept? && Next(p[k].bytes) == Refused)
    decreases k
  {
    hide Next;
    var p := Pieces(s, needle);
    PiecesMakeUp(s, needle);
    assert p[0..] == p;
    if Starts(s, needle) {
      var rest := s[|needle|..];
      PiecesMakeUp(rest, needle);
      assert p[1..] == Pieces(rest, needle);
      if k > 0 {
        Shifted(p, k);
        CutAtBoundaries(rest, needle, k - 1);
      }
    } else {
      match Next(s)
      case Refused =>
      case Read(_, _, rest) =>
        PiecesMakeUp(rest, needle);
        assert p[1..] == Pieces(rest, needle);
        if k > 0 {
          Shifted(p, k);
          CutAtBoundaries(rest, needle, k - 1);
        }
    }
  }

  lemma Shifted(p: seq<Piece>, k: nat)
    requires 0 < k < |p|
    ensures p[1..][k - 1..] == p[k..] && p[1..][k..] == p[k + 1..] && p[1..][k - 1] == p[k]
  {
  }

  /** Nothing is lost but the copies of the needle. */
  lemma {:induction false} LengthKept(p: seq<Piece>, needle: seq<octet>)
    ensures |Remains(p)| + Cuts(p) * |needle| == |Whole(p, needle)|
    ensures Cuts(p) == 0 ==> Remains(p) == Whole(p, needle)
  {
    if p != [] {
      LengthKept(p[1..], needle);
      assert Cuts(p) * |needle| == (if p[0].Cut? then |needle| else 0) + Cuts(p[1..]) * |needle|;
    }
  }

  lemma DeletionConserves(s: seq<octet>, needle: seq<octet>)
    requires needle != []
    ensures var p := Pieces(s, needle); |Remains(p)| + Cuts(p) * |needle| == |s| && (Cuts(p) == 0 ==> Remains(p) == s)
  {
    PiecesMakeUp(s, needle);
    LengthKept(Pieces(s, needle), needle);
  }

  lemma {:induction false} WholeIsNoShorter(p: seq<Piece>, needle: seq<octet>, k: nat, j: nat)
    requires k <= j <= |p|
    ensures |Whole(p[j..], needle)| <= |Whole(p[k..], needle)|
    decreases j - k
  {
    if k < j {
      WholeIsNoShorter(p, needle, k + 1, j);
      assert p[k..][1..] == p[k + 1..];
    }
  }

  /** From a boundary that is reached with no more left than the needle is long, everything stays: in
      particular a copy of the needle that starts there and ends the script. */
  lemma EndIsKept(s: seq<octet>, needle: seq<octet>, k: nat, j: nat)
    requires needle != [] && k <= j < |Pieces(s, needle)|
    requires |Whole(Pieces(s, needle)[k..], needle)| <= |needle|
    ensures Pieces(s, needle)[j].Kept?
  {
    hide Pieces, Whole, Next;
    WholeIsNoShorter(Pieces(s, needle), needle, k, j);
    CutAtBoundaries(s, needle, j);
  }

  /** A copy that ends the script but begins in one that is deleted does not stay. */
  lemma OverlapIsCut()
    ensures Pieces([1, 1, 1], [1, 1]) == [Cut, Kept([1])]
  {
    assert [1, 1, 1][2..] == [1];
    assert Pieces([1], [1, 1]) == [Kept([1])];
  }

  method FindAndDelete(haystack: Script, needle: seq<octet>) returns (found: nat)
    modifies haystack
    ensures needle == [] ==> found == 0 && haystack.bytes == old(haystack.bytes)
    ensures needle != [] ==> var p := Pieces(old(haystack.bytes), needle);
      found == Cuts(p) && haystack.bytes == Remains(p)
  {
    hide Next, Pieces, Remains, Cuts;
    if needle == [] {
      return 0;
    }
    ghost var p := Pieces(haystack.bytes, needle);
    var h := haystack.bytes;
    var pc, pc2, result := 0, 0, [];
    found := 0;
    while true
      invariant 0 <= pc2 <= pc <= |h| && haystack.bytes == h
      invariant result + h[pc2..pc] + Remains(Pieces(h[pc..], needle)) == Remains(p)
      invariant found + Cuts(Pieces(h[pc..], needle)) == Cuts(p)
      decreases |h| - pc
    {
      result := result + h[pc2..pc];
      ghost var start := pc;
      var copies;
      pc, copies := SkipCopies(h, pc, needle);
      found := found + copies;
      pc2 := pc;
      KeepHere(h, pc, needle);
      var ok, opcode, data;
      ok, pc, opcode, data := haystack.GetOp(pc);
      if !ok { break; }
      assert h[pc2..][..pc - pc2] == h[pc2..pc];
    }
    if found > 0 {
      haystack.bytes := result + h[pc2..];
    } else {
      DeletionConserves(h, needle);
    }
  }

  /** The inner loop: copies of the needle one after the other, but none that ends the script. */
  method SkipCopies(h: seq<octet>, start: nat, needle: seq<octet>) returns (pc: nat, found: nat)
    requires start <= |h| && needle != []
    ensures start <= pc <= |h|
    ensures !(pc + |needle| < |h| && h[pc..pc + |needle|] == needle)
    ensures Remains(Pieces(h[pc..], needle)) == Remains(Pieces(h[start..], needle))
    ensures found + Cuts(Pieces(h[pc..], needle)) == Cuts(Pieces(h[start..], needle))
  {
    hide Pieces, Remains, Cuts;
    pc, found := start, 0;
    while pc + |needle| < |h| && h[pc..pc + |needle|] == needle
      invariant start <= pc <= |h|
      invariant Remains(Pieces(h[pc..], needle)) == Remains(Pieces(h[start..], needle))
      invariant found + Cuts(Pieces(h[pc..], needle)) == Cuts(Pieces(h[start..], needle))
      decreases |h| - pc
    {
      CutHere(h, pc, needle);
      pc := pc + |needle|;
      found := found + 1;
    }
  }

  lemma CutHere(h: seq<octet>, pc: nat, needle: seq<octet>)
    requires needle != [] && pc + |needle| < |h| && h[pc..pc + |needle|] == needle
    ensures var p, q := Pieces(h[pc..], needle), Pieces(h[pc + |needle|..], needle);
      Remains(p) == Remains(q) && Cuts(p) == Cuts(q) + 1
  {
    hide Next;
    var s := h[pc..];
    assert s[..|needle|] == needle && s[|needle|..] == h[pc + |needle|..];
    assert Pieces(s, needle)[1..] == Pieces(h[pc + |needle|..], needle);
  }

  lemma KeepHere(h: seq<octet>, pc: nat, needle: seq<octet>)
    requires needle != [] && pc <= |h| && !(pc + |needle| < |h| && h[pc..pc + |needle|] == needle)
    ensures var s := h[pc..]; var p, r := Pieces(s, needle), Next(s);
      if r.Refused? then Remains(p) == s && Cuts(p) == 0
      else
        var q := Pieces(r.rest, needle);
        Remains(p) == s[..|s| - |r.rest|] + Remains(q) && Cuts(p) == Cuts(q)
  {
    hide Next;
    var s := h[pc..];
    assert |needle| < |s| ==> s[..|needle|] == h[pc..pc + |needle|];
    match Next(s)
    case Refused => assert Pieces(s, needle) == [Kept(s)];
    case Read(_, _, rest) => assert Pieces(s, needle)[1..] == Pieces(rest, needle);
  }
}
