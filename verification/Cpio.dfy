/** The cpio "newc" reader and writer of the boot image tool. */
module Cpio {
  import opened Common
  import opened Bytes

  datatype Item = Item(hdr: seq<Byte>, name: seq<Byte>, data: seq<Byte>)

  /** What cpio_parse has after some rounds of its loop: a result, a ValueError, or more to do */
  datatype Parsed = Parsed(items: seq<Item>, tail: seq<Byte>) | Malformed | Running

  /** b'070701' */
  const MAGIC: seq<Byte> := [48, 55, 48, 55, 48, 49]

  /** b'TRAILER!!!' */
  const TRAILER: seq<Byte> := [84, 82, 65, 73, 76, 69, 82, 33, 33, 33]

  // ---------------------------------------------------------------- reading

  /** The next multiple of four: (x + 3) // 4 * 4 */
  function Up4(x: int): int { (x + 3) / 4 * 4 }

  /** An entry can start at `q`, which may count from the end. */
  predicate Starts(buf: seq<Byte>, q: int) {
    q + 110 <= |buf| && PySlice(buf, q, q + 6) == MAGIC
  }

  /** The two size fields of the header at `q`; either may be no number, and a number may be negative */
  function NameSize(buf: seq<Byte>, q: int): Option<int> { FieldValue(PySlice(PySlice(buf, q, q + 110), 94, 102)) }

  function DataSize(buf: seq<Byte>, q: int): Option<int> { FieldValue(PySlice(PySlice(buf, q, q + 110), 54, 62)) }

  /** The entry at `q` and where the next one would start, unless a size field is no number */
  function Entry(buf: seq<Byte>, q: int): Option<(Item, int)> {
    var nsz, fsz := NameSize(buf, q), DataSize(buf, q);
    if nsz.None? || fsz.None? then None
    else
      var p := Up4(q + 110 + nsz.value);
      var name := PySlice(buf, q + 110, q + 110 + nsz.value - 1);
      Some((Item(PySlice(buf, q, q + 110), name, PySlice(buf, p, p + fsz.value)), Up4(p + fsz.value)))
  }

  function Prepend(item: Item, rest: Parsed): Parsed {
    if rest.Parsed? then Parsed([item] + rest.items, rest.tail) else rest
  }

  /** At most `n` rounds of the loop of cpio_parse, from place `q` on */
  function ParseN(buf: seq<Byte>, q: int, n: nat): Parsed
    decreases n
  {
    if !Starts(buf, q) then Parsed([], PySlice(buf, q, |buf|))
    else if n == 0 then Running
    else if Entry(buf, q).None? then Malformed
    else
      var (item, next) := Entry(buf, q).value;
      Prepend(item, if item.name == TRAILER then Parsed([], PySlice(buf, next, |buf|)) else ParseN(buf, next, n - 1))
  }

  /** cpio_parse: after so many rounds it has returned or never will (CpioReturns.NeverExactly). */
  function Parse(buf: seq<Byte>): Parsed { ParseN(buf, 0, 2 * |buf|) }

  /** The body of the loop of cpio_parse, up to the test for the trailer */
  method ReadEntry(buf: seq<Byte>, q: int) returns (e: Option<(Item, int)>)
    ensures e == Entry(buf, q)
  {
    hide FieldValue, PySlice, Up4;
    var hdr := PySlice(buf, q, q + 110);
    var nsz := FieldValue(PySlice(hdr, 94, 102));
    if nsz.None? {
      return None;
    }
    var fsz := FieldValue(PySlice(hdr, 54, 62));
    if fsz.None? {
      return None;
    }
    var name := PySlice(buf, q + 110, q + 110 + nsz.value - 1);
    var p := Up4(q + 110 + nsz.value);
    var item := Item(hdr, name, PySlice(buf, p, p + fsz.value));
    return Some((item, Up4(p + fsz.value)));
  }

  /** cpio_parse.  Counting the rounds, and giving up after so many, is all that the source does not have. */
  method CpioParse(buf: seq<Byte>) returns (r: Parsed)
    ensures r == Parse(buf)
  {
    hide Entry, PySlice;
    var items: seq<Item>, q: int, left: nat := [], 0, 2 * |buf|;
    while q + 110 <= |buf|
      invariant Parse(buf) == Joined(items, ParseN(buf, q, left))
      decreases left
    {
      if PySlice(buf, q, q + 6) != MAGIC {
        break;
      }
      if left == 0 {
        return Running;
      }
      left := left - 1;
      var e := ReadEntry(buf, q);
      if e.None? {
        return Malformed;
      }
      var (item, next) := e.value;
      ghost var rest := if item.name == TRAILER then Parsed([], PySlice(buf, next, |buf|)) else ParseN(buf, next, left);
      JoinedMore(items, item, rest);
      items := items + [item];
      q := next;
      if item.name == TRAILER {
        break;
      }
    }
    r := Parsed(items, PySlice(buf, q, |buf|));
  }

  function Joined(items: seq<Item>, rest: Parsed): Parsed {
    if rest.Parsed? then Parsed(items + rest.items, rest.tail) else rest
  }

  lemma JoinedMore(items: seq<Item>, item: Item, rest: Parsed)
    ensures Joined(items, Prepend(item, rest)) == Joined(items + [item], rest)
    ensures rest.Parsed? && rest.items == [] ==> Joined(items + [item], rest) == Parsed(items + [item], rest.tail)
  {
    if rest.Parsed? { assert items + ([item] + rest.items) == (items + [item]) + rest.items; }
  }

  // ---------------------------------------------------------------- printing

  /** The header with both size fields brought up to date */
  function Stamped(item: Item): seq<Byte> {
    Assign(Assign(item.hdr, 54, 62, Hex(|item.data|, 8)), 94, 102, Hex(|item.name| + 1, 8))
  }

  function Head(item: Item): seq<Byte> { Stamped(item) + item.name + [0] }

  function Padded(s: seq<Byte>): seq<Byte> { s + Zeros(Gap(|s|, 4)) }

  function Printed(item: Item): seq<Byte> { Padded(Head(item)) + Padded(item.data) }

  function Build(items: seq<Item>): seq<Byte> {
    if items == [] then [] else Printed(items[0]) + Build(items[1..])
  }

  lemma PaddedAligned(s: seq<Byte>)
    ensures |Padded(s)| % 4 == 0 && |Padded(s)| == RoundUp(|s|, 4) && |s| <= |Padded(s)| < |s| + 4
  {
    RoundUpIs(|s|, 4);
  }

  lemma PrintedAligned(item: Item)
    ensures |Printed(item)| % 4 == 0
  {
    PaddedAligned(Head(item));
    PaddedAligned(item.data);
    SumAligned(|Padded(Head(item))|, |Padded(item.data)|);
  }

  lemma SumAligned(a: nat, b: nat)
    requires a % 4 == 0 && b % 4 == 0
    ensures (a + b) % 4 == 0
  {
  }

  lemma {:induction false} BuildMore(items: seq<Item>, item: Item)
    ensures Build(items + [item]) == Build(items) + Printed(item)
  {
    hide Printed;
    if items == [] {
      assert (items + [item])[1..] == [];
    } else {
      BuildMore(items[1..], item);
      assert (items + [item])[1..] == items[1..] + [item];
    }
  }

  lemma PadMore(s: seq<Byte>, k: nat)
    ensures s + Zeros(k) + [0] == s + Zeros(k + 1)
  {
  }

  lemma PadDone(base: seq<Byte>, piece: seq<Byte>)
    ensures base + piece + Zeros(|Padded(piece)| - |piece|) == base + Padded(piece)
  {
  }

  lemma PadLength(b: nat, p: nat, k: nat, g: nat)
    requires b % 4 == 0 && (p + g) % 4 == 0 && k <= g < 4
    ensures (b + p + k) % 4 == 0 <==> k == g
  {
    var x, y := b / 4, (p + g) / 4;
    if k == g { Remainder(b + p + k, x + y, 0); } else { Remainder(b + p + k, x + y - 1, 4 - (g - k)); }
  }

  lemma Remainder(n: nat, q: int, r: nat)
    requires n == 4 * q + r && r < 4
    ensures n % 4 == r
  {
  }

  /** A padding loop: zeros up to the next multiple of four */
  method Pad(s: seq<Byte>, ghost base: seq<Byte>, ghost piece: seq<Byte>) returns (out: seq<Byte>)
    requires s == base + piece && |base| % 4 == 0
    ensures out == base + Padded(piece) && |out| % 4 == 0
  {
    hide Padded;
    out := s;
    PaddedAligned(piece);
    PadDone(base, piece);
    ghost var k := 0;
    while |out| % 4 != 0
      invariant k <= |Padded(piece)| - |piece| && out == s + Zeros(k)
      decreases |Padded(piece)| - |piece| - k
    {
      PadLength(|base|, |piece|, k, |Padded(piece)| - |piece|);
      PadMore(s, k);
      out := out + [0];
      k := k + 1;
    }
    PadLength(|base|, |piece|, k, |Padded(piece)| - |piece|);
  }

  /** The body of the loop of cpio_build */
  method AppendEntry(before: seq<Byte>, item: Item) returns (out: seq<Byte>)
    requires |before| % 4 == 0
    ensures out == before + Printed(item) && |out| % 4 == 0
  {
    var h := item.hdr;
    h := Assign(h, 54, 62, Hex(|item.data|, 8));
    h := Assign(h, 94, 102, Hex(|item.name| + 1, 8));
    out := before + (h + item.name + [0]);
    out := Pad(out, before, Head(item));
    ghost var middle := out;
    out := out + item.data;
    out := Pad(out, middle, item.data);
    Regroup(before, Padded(Head(item)), Padded(item.data), []);
  }

  /** cpio_build */
  method CpioBuild(items: seq<Item>, tail: seq<Byte>) returns (r: seq<Byte>)
    ensures r == Build(items) + tail
  {
    hide Printed;
    var out: seq<Byte> := [];
    for i := 0 to |items|
      invariant out == Build(items[..i]) && |out| % 4 == 0
    {
      out := AppendEntry(out, items[i]);
      BuildMore(items[..i], items[i]);
      assert items[..i + 1] == items[..i] + [items[i]];
    }
    assert items[..|items|] == items;
    r := out + tail;
  }

  // ---------------------------------------------------------------- reading back what was printed

  /** An entry cpio_build can print: a whole newc header, and sizes of 32 bits */
  predicate Good(item: Item) {
    |item.hdr| == 110 && item.hdr[..6] == MAGIC && |item.name| + 1 < WORD && |item.data| < WORD
  }

  function Normal(item: Item): Item { item.(hdr := Stamped(item)) }

  function Normals(items: seq<Item>): (r: seq<Item>)
    ensures |r| == |items|
  {
    if items == [] then [] else [Normal(items[0])] + Normals(items[1..])
  }

  /** Where the two size fields are stamped, whether or not the sizes fit in eight digits */
  lemma StampedFields(item: Item)
    requires |item.hdr| == 110
    ensures var h, fsz, nsz := Stamped(item), Hex(|item.data|, 8), Hex(|item.name| + 1, 8);
      && |fsz| >= 8 && |nsz| >= 8 && |h| == 94 + |fsz| + |nsz|
      && h[54..62] == fsz[..8] && h[94..102] == nsz[..8] && h[..6] == item.hdr[..6]
  {
    hide Hex;
    var fsz, nsz := Hex(|item.data|, 8), Hex(|item.name| + 1, 8);
    HexPlain(|item.data|, 8);
    HexPlain(|item.name| + 1, 8);
    var g, h := Assign(item.hdr, 54, 62, fsz), Stamped(item);
    assert g == item.hdr[..54] + fsz + item.hdr[62..];
    assert h == g[..94] + nsz + g[102..];
    assert h[54..62] == h[..94][54..62] == g[..94][54..62] == g[54..62] == fsz[..8];
    assert h[94..102] == nsz[..8];
    assert h[..6] == h[..94][..6] == g[..54][..6] == item.hdr[..54][..6];
  }

  lemma HeaderFields(item: Item)
    requires Good(item)
    ensures var h := Stamped(item);
      && |h| == 110 && h[..6] == MAGIC
      && FieldValue(h[54..62]) == Some(|item.data|) && FieldValue(h[94..102]) == Some(|item.name| + 1)
  {
    hide Stamped, FieldValue;
    StampedFields(item);
    FieldHex(|item.data|);
    FieldHex(|item.name| + 1);
    assert Hex(|item.data|, 8)[..8] == Hex(|item.data|, 8) && Hex(|item.name| + 1, 8)[..8] == Hex(|item.name| + 1, 8);
  }

  lemma AssignAt(s: seq<Byte>, lo: nat, v: seq<Byte>)
    requires |v| == 8 && lo + 8 <= |s|
    ensures var t := Assign(s, lo, lo + 8, v);
      |t| == |s| && t[lo..lo + 8] == v && t[..lo] == s[..lo] && t[lo + 8..] == s[lo + 8..]
  {
  }

  lemma Middle(a: seq<Byte>, b: seq<Byte>, c: seq<Byte>)
    ensures (a + b + c)[|a|..|a| + |b|] == b && Slice(a + b + c, |a|, |a| + |b|) == b
  {
  }

  lemma PrintedLength(item: Item)
    requires Good(item)
    ensures |Head(item)| == 110 + |item.name| + 1
    ensures |Printed(item)| == |Padded(Head(item))| + |Padded(item.data)| && |Printed(item)| >= 110
  {
    HeaderFields(item);
  }

  lemma Up4Aligned(base: int, x: int)
    requires base % 4 == 0
    ensures Up4(base + x) == base + Up4(x) && Up4(x) % 4 == 0 && x <= Up4(x) < x + 4
  {
  }

  lemma Regroup(a: seq<Byte>, b: seq<Byte>, c: seq<Byte>, d: seq<Byte>)
    ensures a + (b + c) + d == a + b + (c + d)
  {
  }

  lemma NameAt(pre: seq<Byte>, item: Item, rest: seq<Byte>)
    requires Good(item)
    ensures PySlice(pre + Printed(item) + rest, |pre| + 110, |pre| + 110 + |item.name|) == item.name
  {
    hide Stamped;
    var h, after := Stamped(item), [0] + Zeros(Gap(|Head(item)|, 4)) + Padded(item.data);
    HeaderFields(item);
    assert Printed(item) == h + (item.name + after);
    InnerPiece(pre, h, item.name, after, rest);
  }

  lemma InnerPiece(pre: seq<Byte>, h: seq<Byte>, piece: seq<Byte>, after: seq<Byte>, rest: seq<Byte>)
    ensures PySlice(pre + (h + (piece + after)) + rest, |pre| + |h|, |pre| + |h| + |piece|) == piece
  {
    Regroup(pre, h, piece + after, rest);
    Regroup(pre + h, piece, after, rest);
    Regroup(pre + h, [], piece + after, rest);
    Middle(pre + h, piece, after + rest);
    assert pre + h + ((piece + after) + rest) == (pre + h) + piece + (after + rest);
  }

  /** The first bytes of a printed entry are those of its stamped header. */
  lemma PrintedHeader(pre: seq<Byte>, item: Item, rest: seq<Byte>, n: nat)
    requires |item.hdr| == 110 && n <= 110
    ensures var buf := pre + Printed(item) + rest;
      |Stamped(item)| >= 110 && |pre| + 110 <= |buf| && PySlice(buf, |pre|, |pre| + n) == Stamped(item)[..n]
  {
    hide Stamped, PySlice;
    StampedFields(item);
    var h, after := Stamped(item), item.name + [0] + Zeros(Gap(|Head(item)|, 4)) + Padded(item.data);
    assert Printed(item) == h + after;
    assert Printed(item) == [] + (h[..n] + (h[n..] + after));
    InnerPiece(pre, [], h[..n], h[n..] + after, rest);
  }

  lemma HeaderAt(pre: seq<Byte>, item: Item, rest: seq<Byte>)
    requires Good(item)
    ensures var buf := pre + Printed(item) + rest;
      Starts(buf, |pre|) && PySlice(buf, |pre|, |pre| + 110) == Stamped(item)
  {
    hide Stamped, Printed, PySlice;
    HeaderFields(item);
    PrintedHeader(pre, item, rest, 6);
    PrintedHeader(pre, item, rest, 110);
    assert Stamped(item)[..110] == Stamped(item);
  }

  lemma DataAt(pre: seq<Byte>, item: Item, rest: seq<Byte>)
    ensures var p := |pre| + |Padded(Head(item))|;
      PySlice(pre + Printed(item) + rest, p, p + |item.data|) == item.data
  {
    hide Head;
    InnerPiece(pre, Padded(Head(item)), item.data, Zeros(Gap(|item.data|, 4)), rest);
  }

  /** Where the reader looks for the data and for the next entry */
  lemma Positions(pre: seq<Byte>, item: Item)
    requires Good(item) && |pre| % 4 == 0
    ensures var p := Up4(|pre| + 110 + |item.name| + 1);
      p == |pre| + |Padded(Head(item))| && Up4(p + |item.data|) == |pre| + |Printed(item)|
  {
    PrintedLength(item);
    PaddedAligned(Head(item));
    PaddedAligned(item.data);
    Up4Aligned(|pre|, 110 + |item.name| + 1);
    SumAligned(|pre|, |Padded(Head(item))|);
    Up4Aligned(|pre| + |Padded(Head(item))|, |item.data|);
  }

  /** One printed entry reads back, wherever it stands. */
  lemma PrintedParses(pre: seq<Byte>, item: Item, rest: seq<Byte>)
    requires Good(item) && |pre| % 4 == 0
    ensures var buf := pre + Printed(item) + rest;
      && Starts(buf, |pre|)
      && Entry(buf, |pre|) == Some((Normal(item), |pre| + |Printed(item)|))
  {
    hide Starts, Stamped, Printed, FieldValue, Up4;
    HeaderFields(item);
    Positions(pre, item);
    HeaderAt(pre, item, rest);
    NameAt(pre, item, rest);
    DataAt(pre, item, rest);
  }

  // ---------------------------------------------------------------- the newc layout

  lemma Up4Fill(x: int, pad: nat)
    requires pad < 4 && (x + pad) % 4 == 0
    ensures Up4(x) == x + pad
  {
  }

  lemma PyPiece(before: seq<Byte>, s: seq<Byte>, after: seq<Byte>)
    ensures PySlice(before + s + after, |before|, |before| + |s|) == s
  {
    Middle(before, s, after);
  }

  /** Any record laid out as newc has it is read as its header, name and data: the header with both sizes, the
      name and one more byte, up to three bytes of filling, the data, and up to three more. */
  lemma EntryLaidOut(pre: seq<Byte>, hdr: seq<Byte>, name: seq<Byte>, end: Byte, pad: seq<Byte>, data: seq<Byte>,
                     fill: seq<Byte>, rest: seq<Byte>)
    requires |pre| % 4 == 0 && |hdr| == 110 && hdr[..6] == MAGIC
    requires FieldValue(hdr[94..102]) == Some(|name| + 1) && FieldValue(hdr[54..62]) == Some(|data|)
    requires |pad| < 4 && (110 + |name| + 1 + |pad|) % 4 == 0 && |fill| < 4 && (|data| + |fill|) % 4 == 0
    ensures var buf := pre + hdr + name + [end] + pad + data + fill + rest;
      Starts(buf, |pre|) && Entry(buf, |pre|) == Some((Item(hdr, name, data), |buf| - |rest|))
  {
    hide FieldValue, Up4, PySlice;
    var buf := pre + hdr + name + [end] + pad + data + fill + rest;
    var p := pre + hdr + name + [end] + pad;
    LaidOutParts(pre, hdr, name, end, pad, data, fill, rest);
    PyPiece(pre, hdr, name + [end] + pad + data + fill + rest);
    PyPiece(pre + hdr, name, [end] + pad + data + fill + rest);
    PyPiece(p, data, fill + rest);
    PyPiece(pre, hdr[..6], hdr[6..] + name + [end] + pad + data + fill + rest);
    LaidOutFields(hdr);
    SumAligned(|pre|, 110 + |name| + 1 + |pad|);
    Up4Fill(|pre| + 110 + |name| + 1, |pad|);
    SumAligned(|p|, |data| + |fill|);
    Up4Fill(|p| + |data|, |fill|);
  }

  lemma LaidOutParts(pre: seq<Byte>, hdr: seq<Byte>, name: seq<Byte>, end: Byte, pad: seq<Byte>, data: seq<Byte>,
                     fill: seq<Byte>, rest: seq<Byte>)
    requires |hdr| == 110
    ensures var buf := pre + hdr + name + [end] + pad + data + fill + rest;
      && buf == pre + hdr + (name + [end] + pad + data + fill + rest)
      && buf == (pre + hdr) + name + ([end] + pad + data + fill + rest)
      && buf == (pre + hdr + name + [end] + pad) + data + (fill + rest)
      && buf == pre + hdr[..6] + (hdr[6..] + name + [end] + pad + data + fill + rest)
  {
  }

  lemma LaidOutFields(hdr: seq<Byte>)
    requires |hdr| == 110
    ensures PySlice(hdr, 94, 102) == hdr[94..102] && PySlice(hdr, 54, 62) == hdr[54..62]
  {
  }

  /** And that is how an entry is printed, filled with zeros. */
  lemma PrintedLaidOut(item: Item) returns (pad: seq<Byte>, fill: seq<Byte>)
    requires Good(item)
    ensures Printed(item) == Stamped(item) + item.name + [0] + pad + item.data + fill
    ensures |pad| < 4 && (110 + |item.name| + 1 + |pad|) % 4 == 0 && |fill| < 4 && (|item.data| + |fill|) % 4 == 0
    ensures forall i :: (0 <= i < |pad| ==> pad[i] == 0) && (0 <= i < |fill| ==> fill[i] == 0)
  {
    PrintedLength(item);
    PaddedAligned(Head(item));
    PaddedAligned(item.data);
    pad, fill := Zeros(Gap(|Head(item)|, 4)), Zeros(Gap(|item.data|, 4));
    assert Padded(Head(item)) + Padded(item.data) == Stamped(item) + item.name + [0] + pad + item.data + fill;
  }

  // ---------------------------------------------------------------- the round trip

  /** Reading stops at `tail`. */
  predicate Ends(items: seq<Item>, tail: seq<Byte>) {
    (items != [] && items[|items| - 1].name == TRAILER) || !Starts(tail, 0)
  }

  predicate TrailerLast(items: seq<Item>) {
    forall i :: 0 <= i < |items| - 1 ==> items[i].name != TRAILER
  }

  lemma StartsShift(pre: seq<Byte>, tail: seq<Byte>)
    ensures Starts(pre + tail, |pre|) == Starts(tail, 0)
    ensures PySlice(pre + tail, |pre|, |pre + tail|) == tail
  {
    if |tail| >= 110 { assert (pre + tail)[|pre|..|pre| + 6] == tail[0..6]; }
  }

  predicate AllGood(items: seq<Item>) { forall i :: 0 <= i < |items| ==> Good(items[i]) }

  lemma BuildNothing(pre: seq<Byte>, items: seq<Item>, tail: seq<Byte>)
    requires items == []
    ensures pre + Build(items) + tail == pre + tail
  {
  }

  lemma NothingToRead(buf: seq<Byte>, q: int, n: nat)
    requires !Starts(buf, q)
    ensures ParseN(buf, q, n) == Parsed([], PySlice(buf, q, |buf|))
  {
  }

  /** One round of the reader over a printed entry */
  lemma PrintedStep(pre: seq<Byte>, item: Item, rest: seq<Byte>, tail: seq<Byte>, n: nat)
    requires |pre| % 4 == 0 && Good(item)
    ensures var buf, pre' := pre + (Printed(item) + rest) + tail, pre + Printed(item);
      && |pre'| % 4 == 0 && buf == pre' + rest + tail
      && ParseN(buf, |pre|, n) ==
         if n == 0 then Running
         else Prepend(Normal(item),
           if item.name == TRAILER then Parsed([], PySlice(buf, |pre'|, |buf|)) else ParseN(buf, |pre'|, n - 1))
  {
    hide Printed, Starts, Entry, PySlice, Stamped;
    Regroup(pre, Printed(item), rest, tail);
    var pre' := pre + Printed(item);
    assert pre' + (rest + tail) == pre' + rest + tail;
    PrintedParses(pre, item, rest + tail);
    PrintedAligned(item);
    SumAligned(|pre|, |Printed(item)|);
  }

  /** From any aligned place on, the reader finds what was printed there. */
  lemma {:induction false} RoundTripFrom(pre: seq<Byte>, items: seq<Item>, tail: seq<Byte>, n: nat)
    requires |pre| % 4 == 0 && AllGood(items) && TrailerLast(items) && Ends(items, tail) && n >= |items|
    ensures ParseN(pre + Build(items) + tail, |pre|, n) == Parsed(Normals(items), tail)
    decreases |items|
  {
    hide Printed, ParseN, Starts, PySlice;
    if items == [] {
      BuildNothing(pre, items, tail);
      StartsShift(pre, tail);
      NothingToRead(pre + tail, |pre|, n);
    } else {
      var pre' := pre + Printed(items[0]);
      PrintedStep(pre, items[0], Build(items[1..]), tail, n);
      if items[0].name == TRAILER {
        BuildNothing(pre', items[1..], tail);
        StartsShift(pre', tail);
      } else {
        RoundTripFrom(pre', items[1..], tail, n - 1);
      }
    }
  }

  lemma MoreToRead(buf: seq<Byte>, q: int, n: nat)
    requires Starts(buf, q)
    ensures var r := ParseN(buf, q, n); !r.Parsed? || r.items != []
  {
  }

  /** Otherwise it finds something else: fewer entries, or more, or no result at all. */
  lemma {:induction false} NoRoundTripFrom(pre: seq<Byte>, items: seq<Item>, tail: seq<Byte>, n: nat)
    requires |pre| % 4 == 0 && AllGood(items) && !(TrailerLast(items) && Ends(items, tail))
    ensures var r := ParseN(pre + Build(items) + tail, |pre|, n); !r.Parsed? || |r.items| != |items|
    decreases |items|
  {
    hide Printed, ParseN, Starts, PySlice;
    if items == [] {
      BuildNothing(pre, items, tail);
      StartsShift(pre, tail);
      MoreToRead(pre + tail, |pre|, n);
    } else {
      PrintedStep(pre, items[0], Build(items[1..]), tail, n);
      if items[0].name != TRAILER && n > 0 {
        NoRoundTripFrom(pre + Printed(items[0]), items[1..], tail, n - 1);
      }
    }
  }

  lemma {:induction false} BuildLong(items: seq<Item>)
    requires AllGood(items)
    ensures |Build(items)| >= |items|
  {
    if items != [] {
      PrintedLength(items[0]);
      BuildLong(items[1..]);
    }
  }

  /** cpio_parse gives back what cpio_build was given, up to the size fields of the headers, exactly when no
      trailer comes before the last entry and reading does not run on into the tail. */
  lemma RoundTripExactly(items: seq<Item>, tail: seq<Byte>)
    requires AllGood(items)
    ensures Parse(Build(items) + tail) == Parsed(Normals(items), tail) <==> TrailerLast(items) && Ends(items, tail)
  {
    hide ParseN, AllGood, TrailerLast, Ends, Build;
    var buf := Build(items) + tail;
    assert [] + Build(items) + tail == buf;
    BuildLong(items);
    if TrailerLast(items) && Ends(items, tail) {
      RoundTripFrom([], items, tail, 2 * |buf|);
    } else {
      NoRoundTripFrom([], items, tail, 2 * |buf|);
    }
  }

  // ---------------------------------------------------------------- what was read can be printed

  lemma NoField()
    ensures FieldValue([]) == None
  {
  }

  /** A header with two size fields is whole. */
  lemma EntryHeader(buf: seq<Byte>, q: int)
    requires Starts(buf, q) && Entry(buf, q).Some?
    ensures var hdr := PySlice(buf, q, q + 110); |hdr| == 110 && hdr[..6] == MAGIC
  {
    hide FieldValue;
    NoField();
    var hdr := PySlice(buf, q, q + 110);
    assert PySlice(hdr, 94, 102) != [];
    assert |hdr| == 110;
    assert hdr[..6] == PySlice(buf, q, q + 6);
  }

  /** Neither size at `q` is negative. */
  predicate Unsigned(buf: seq<Byte>, q: int) {
    && NameSize(buf, q).Some? && NameSize(buf, q).value >= 0
    && DataSize(buf, q).Some? && DataSize(buf, q).value >= 0
  }

  /** Nor is any of the sizes that `n` rounds from `q` on come to, up to one that is no number. */
  predicate AllUnsigned(buf: seq<Byte>, q: int, n: nat)
    decreases n
  {
    || !Starts(buf, q) || n == 0 || Entry(buf, q).None?
    || (&& Unsigned(buf, q)
        && (Entry(buf, q).value.0.name == TRAILER || AllUnsigned(buf, Entry(buf, q).value.1, n - 1)))
  }

  lemma SliceShort(s: seq<Byte>, lo: int, hi: int)
    ensures |PySlice(s, lo, hi)| <= |s|
    ensures lo >= 0 && hi >= 0 ==> |PySlice(s, lo, hi)| <= if hi > lo then hi - lo else 0
  {
  }

  /** What is read can be printed if the sizes are not negative, or the archive is shorter than 2^32 bytes. */
  lemma EntryGood(buf: seq<Byte>, q: int)
    requires Starts(buf, q) && Entry(buf, q).Some?
    requires |buf| + 1 < WORD || (q >= 0 && Unsigned(buf, q))
    ensures Good(Entry(buf, q).value.0)
    ensures q >= 0 && Unsigned(buf, q) ==> Entry(buf, q).value.1 >= 0
  {
    hide Starts, FieldValue, PySlice;
    EntryHeader(buf, q);
    var hdr, nsz, fsz := PySlice(buf, q, q + 110), NameSize(buf, q).value, DataSize(buf, q).value;
    var p := Up4(q + 110 + nsz);
    SliceShort(hdr, 94, 102);
    SliceShort(hdr, 54, 62);
    FieldBound(PySlice(hdr, 94, 102));
    FieldBound(PySlice(hdr, 54, 62));
    SliceShort(buf, q + 110, q + 110 + nsz - 1);
    SliceShort(buf, p, p + fsz);
  }

  /** Everything the reader returns is fit for printing, and with unsigned sizes it stopped at the tail. */
  lemma {:induction false} ParsedGood(buf: seq<Byte>, q: int, n: nat)
    requires ParseN(buf, q, n).Parsed? && (|buf| + 1 < WORD || (q >= 0 && AllUnsigned(buf, q, n)))
    ensures var r := ParseN(buf, q, n); AllGood(r.items) && TrailerLast(r.items)
    ensures var r := ParseN(buf, q, n); q >= 0 && AllUnsigned(buf, q, n) ==> Ends(r.items, r.tail)
    decreases n
  {
    hide PySlice, Starts, Entry, Good, Unsigned;
    if !Starts(buf, q) {
      if q >= 0 { StopsAt(buf, q); }
    } else {
      EntryGood(buf, q);
      var (item, next) := Entry(buf, q).value;
      if item.name != TRAILER { ParsedGood(buf, next, n - 1); }
    }
  }

  lemma StopsAt(buf: seq<Byte>, q: nat)
    requires !Starts(buf, q)
    ensures !Starts(PySlice(buf, q, |buf|), 0)
  {
    if q <= |buf| {
      assert buf[..q] + buf[q..] == buf;
      StartsShift(buf[..q], buf[q..]);
    }
  }

  /** Whatever bytes are read, printing the entries and reading again gives the same names, data and tail
      exactly when reading does not run on into the tail, as it never does with unsigned sizes. */
  lemma PrintedAgain(buf: seq<Byte>)
    requires Parse(buf).Parsed? && (|buf| + 1 < WORD || AllUnsigned(buf, 0, 2 * |buf|))
    ensures var r := Parse(buf);
      && (Parse(Build(r.items) + r.tail) == Parsed(Normals(r.items), r.tail) <==> Ends(r.items, r.tail))
      && (AllUnsigned(buf, 0, 2 * |buf|) ==> Ends(r.items, r.tail))
  {
    hide ParseN, AllUnsigned, Build;
    var r := Parse(buf);
    ParsedGood(buf, 0, 2 * |buf|);
    RoundTripExactly(r.items, r.tail);
  }

  // ---------------------------------------------------------------- what comes out as it went in

  lemma AcceptedSizes(pre: seq<Byte>, item: Item, rest: seq<Byte>)
    requires |item.hdr| == 110
    ensures Unsigned(pre + Printed(item) + rest, |pre|)
  {
    hide Stamped, Printed, Hex, FieldValue;
    var h, fsz, nsz := Stamped(item), Hex(|item.data|, 8), Hex(|item.name| + 1, 8);
    PrintedHeader(pre, item, rest, 110);
    StampedFields(item);
    HexPlain(|item.data|, 8);
    HexPlain(|item.name| + 1, 8);
    assert h[..110][54..62] == h[54..62] && h[..110][94..102] == h[94..102];
    PlainField(fsz[..8]);
    PlainField(nsz[..8]);
  }

  /** Where the reader finds the very entries that were printed, their sizes do fit, and it stopped where it
      should. */
  lemma {:induction false} AcceptedFrom(pre: seq<Byte>, items: seq<Item>, tail: seq<Byte>, n: nat)
    requires |pre| % 4 == 0 && ParseN(pre + Build(items) + tail, |pre|, n) == Parsed(items, tail)
    ensures AllGood(items) && TrailerLast(items) && Ends(items, tail)
    decreases |items|
  {
    hide Printed, Starts, Entry, PySlice, Good, Normal;
    if items == [] {
      BuildNothing(pre, items, tail);
      StartsShift(pre, tail);
    } else {
      var item, rest := items[0], Build(items[1..]);
      Regroup(pre, Printed(item), rest, tail);
      assert pre + (Printed(item) + rest) + tail == pre + Printed(item) + (rest + tail);
      AcceptedItem(pre, item, rest + tail);
      PrintedStep(pre, item, rest, tail, n);
      if item.name != TRAILER { AcceptedFrom(pre + Printed(item), items[1..], tail, n - 1); }
    }
  }

  lemma AcceptedItem(pre: seq<Byte>, item: Item, rest: seq<Byte>)
    requires var buf := pre + Printed(item) + rest;
      Starts(buf, |pre|) && Entry(buf, |pre|).Some? && Entry(buf, |pre|).value.0 == item
    ensures Good(item)
  {
    hide Printed, Starts, Good, Unsigned;
    var buf := pre + Printed(item) + rest;
    EntryHeader(buf, |pre|);
    AcceptedSizes(pre, item, rest);
    EntryGood(buf, |pre|);
  }

  /** What ramdisk_open lets pass reads back as it was read, headers included, and stays printable. */
  lemma AcceptedAgain(buf: seq<Byte>)
    requires Parse(buf).Parsed? && Build(Parse(buf).items) + Parse(buf).tail == buf
    ensures var r := Parse(buf);
      AllGood(r.items) && TrailerLast(r.items) && Ends(r.items, r.tail) && Normals(r.items) == r.items
  {
    hide ParseN, Build;
    var r := Parse(buf);
    assert [] + Build(r.items) + r.tail == buf;
    AcceptedFrom([], r.items, r.tail, 2 * |buf|);
    RoundTripExactly(r.items, r.tail);
  }
}
