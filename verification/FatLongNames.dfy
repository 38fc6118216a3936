/**
 Long file names on FAT32: a name is cut into pieces of 13 characters, one per directory entry, the
 last piece first. Reading a directory puts the pieces together from the back; deleting an entry
 sorts them by their order field first.
 */
module FatLongNames {
  import KlibSort

  const PIECE: nat := 13
  const MAX_NAME: nat := 255
  const LAST_ENTRY: nat := 0x40
  const END: nat := 0x0000
  const PAD: nat := 0xFFFF

  type Units = seq<nat>

  const ATTR_LONG_NAME: nat := 0x0F

  datatype LongEntry = LongEntry(
    order: nat, name1: Units, attr: nat, kind: nat, checksum: nat, name2: Units, firstCluster: nat, name3: Units)
  {

    function AllUnits(): Units {
      name1 + name2 + name3
    }

    /** The order field without the mark of the last piece. */
    function Order(): nat {
      order % 0x40
    }
  }

  /** A name as a string of bytes: not empty, no null byte. */
  ghost predicate IsName(name: Units) {
    0 < |name| <= MAX_NAME && forall i :: 0 <= i < |name| ==> 0 < name[i] < 0x100
  }

  // The checksum of the short name

  const SHORT: nat := 11

  /** A byte rotated right by one bit. */
  function Rotated(sum: nat): nat {
    (if sum % 2 == 1 then 0x80 else 0) + sum / 2
  }

  /** One step on a byte: rotated right by one bit, then the character added. */
  function Mix(sum: nat, c: nat): nat {
    (Rotated(sum) + c) % 0x100
  }

  function CheckSum(cs: Units): (sum: nat)
    ensures sum < 0x100
  {
    if cs == [] then 0 else Mix(CheckSum(cs[..|cs| - 1]), cs[|cs| - 1])
  }

  method ChkSum(short: Units) returns (sum: nat)
    requires |short| == SHORT
    ensures sum == CheckSum(short)
  {
    hide Mix;
    sum := 0;
    for i := 0 to SHORT
      invariant sum == CheckSum(short[..i])
    {
      assert short[..i + 1][..i] == short[..i];
      sum := Mix(sum, short[i]);
    }
    assert short[..SHORT] == short;
  }

  /** Bit `k` of a number. */
  ghost function Bit(x: nat, k: nat): nat {
    if k == 0 then x % 2 else Bit(x / 2, k - 1)
  }

  /** A bit put on top of `m` bits. */
  lemma {:induction false} TopBit(b: nat, h: nat, m: nat, k: nat)
    requires b < 2 && h < KlibSort.Pow2(m) && k <= m
    ensures Bit(b * KlibSort.Pow2(m) + h, k) == if k < m then Bit(h, k) else b
  {
    if m > 0 {
      var p := KlibSort.Pow2(m - 1);
      assert KlibSort.Pow2(m) == 2 * p;
      assert b * (2 * p) == 2 * (b * p);
      var x := b * KlibSort.Pow2(m) + h;
      assert x / 2 == b * p + h / 2 && x % 2 == h % 2;
      if k > 0 {
        TopBit(b, h / 2, m - 1, k - 1);
      }
    }
  }

  lemma RotatedBits(s: nat, k: nat)
    requires s < 0x100 && k < 8
    ensures Rotated(s) < 0x100 && Bit(Rotated(s), k) == Bit(s, (k + 1) % 8)
  {
    hide KlibSort.Pow2;
    var b, h := s % 2, s / 2;
    EightBits();
    assert Rotated(s) == b * 128 + h;
    TopBit(b, h, 7, k);
    assert k < 7 ==> (k + 1) % 8 == k + 1;
  }

  lemma EightBits()
    ensures KlibSort.Pow2(7) == 128
  {
    assert KlibSort.Pow2(4) == 16;
  }

  /** One character more: what the sum was, each bit moved down by one and the lowest to the top, plus the character. */
  lemma CheckSumBits(cs: Units, c: nat, k: nat)
    requires c < 0x100 && k < 8
    ensures CheckSum([]) == 0
    ensures Bit((CheckSum(cs + [c]) - c) % 0x100, k) == Bit(CheckSum(cs), (k + 1) % 8)
  {
    hide Bit;
    var s := CheckSum(cs);
    assert (cs + [c])[..|cs|] == cs;
    RotatedBits(s, k);
    Wraps(Rotated(s) + c);
  }

  lemma MixDiffers(s: nat, t: nat, c: nat, d: nat)
    requires s < 0x100 && t < 0x100 && c < 0x100 && d < 0x100
    ensures s != t ==> Mix(s, c) != Mix(t, c)
    ensures c != d ==> Mix(s, c) != Mix(s, d)
  {
    RotatedDiffers(s, t);
    hide Rotated;
    Wraps(Rotated(s) + c);
    Wraps(Rotated(t) + c);
    Wraps(Rotated(s) + d);
  }

  lemma RotatedDiffers(s: nat, t: nat)
    requires s < 0x100 && t < 0x100
    ensures Rotated(s) < 0x100 && Rotated(t) < 0x100 && (s != t ==> Rotated(s) != Rotated(t))
  {
    assert s == 2 * (s / 2) + s % 2 && t == 2 * (t / 2) + t % 2;
  }

  lemma Wraps(x: nat)
    requires x < 0x200
    ensures x % 0x100 == if x < 0x100 then x else x - 0x100
  {
  }

  /** Short names that differ in one character have different checksums. */
  lemma {:induction false} CheckSumDiffers(cs: Units, k: nat, c: nat)
    requires k < |cs| && c < 0x100 && c != cs[k] && forall i :: 0 <= i < |cs| ==> cs[i] < 0x100
    ensures CheckSum(cs[k := c]) != CheckSum(cs)
  {
    hide Mix;
    var n := |cs| - 1;
    if k < n {
      assert cs[k := c][..n] == cs[..n][k := c];
      CheckSumDiffers(cs[..n], k, c);
      MixDiffers(CheckSum(cs[..n][k := c]), CheckSum(cs[..n]), cs[n], cs[n]);
    } else {
      assert cs[k := c][..n] == cs[..n];
      MixDiffers(CheckSum(cs[..n]), CheckSum(cs[..n]), c, cs[n]);
    }
  }

  // Encoding

  /** Character `k` of a name, or the terminator, or the padding behind it. */
  function Unit(name: Units, k: nat): nat {
    if k < |name| then name[k] else if k == |name| then END else PAD
  }

  function Piece(name: Units, from: nat, count: nat): (p: Units)
    ensures |p| == count
  {
    seq<nat>(count, c requires 0 <= c < count => Unit(name, from + c))
  }

  function Pieces(len: nat): nat {
    (len + 12) / 13
  }

  /** The entry of piece `i`. */
  function EntryOf(name: Units, sum: nat, i: nat): LongEntry {
    LongEntry(i + 1 + if i + 1 == Pieces(|name|) then LAST_ENTRY else 0,
              Piece(name, PIECE * i, 5), ATTR_LONG_NAME, 0, sum, Piece(name, PIECE * i + 5, 6), 0,
              Piece(name, PIECE * i + 11, 2))
  }

  /** The entries in the order in which they stand in the directory. */
  function Entries(name: Units, sum: nat): (es: seq<LongEntry>)
    ensures |es| == Pieces(|name|)
  {
    var n := Pieces(|name|);
    seq(n, j requires 0 <= j < n => EntryOf(name, sum, n - 1 - j))
  }

  /**
   How a name stands in a directory: in as few entries as hold it, the last part first and marked with
   0x40; behind the last character a 0x0000, and 0xFFFF behind that.
   */
  ghost predicate LaidOut(es: seq<LongEntry>, name: Units, sum: nat) {
    && (if name == [] then es == [] else 13 * (|es| - 1) < |name| <= 13 * |es|)
    && forall j :: 0 <= j < |es| ==> PartAt(es[j], name, |es| - 1 - j, sum, j == 0)
  }

  /** The entry of characters `13 * i` to `13 * i + 12`. */
  ghost predicate PartAt(e: LongEntry, name: Units, i: nat, sum: nat, last: bool) {
    && e.order == i + 1 + (if last then 0x40 else 0)
    && e.attr == 0x0F && e.kind == 0 && e.firstCluster == 0 && e.checksum == sum
    && |e.name1| == 5 && |e.name2| == 6 && |e.name3| == 2
    && (forall c :: 0 <= c < 5 ==> UnitAt(e.name1[c], name, 13 * i + c))
    && (forall c :: 0 <= c < 6 ==> UnitAt(e.name2[c], name, 13 * i + 5 + c))
    && (forall c :: 0 <= c < 2 ==> UnitAt(e.name3[c], name, 13 * i + 11 + c))
  }

  ghost predicate UnitAt(u: nat, name: Units, k: nat) {
    if k < |name| then u == name[k] else if k == |name| then u == 0x0000 else u == 0xFFFF
  }

  lemma EntriesLaidOut(name: Units, sum: nat)
    ensures LaidOut(Entries(name, sum), name, sum)
  {
    hide EntryOf;
    hide PartAt;
    var es := Entries(name, sum);
    PiecesLeast(|name|);
    forall j | 0 <= j < |es|
      ensures PartAt(es[j], name, |es| - 1 - j, sum, j == 0)
    {
      EntryIsPart(name, sum, |es| - 1 - j);
    }
  }

  lemma EntryIsPart(name: Units, sum: nat, i: nat)
    ensures PartAt(EntryOf(name, sum, i), name, i, sum, i + 1 == Pieces(|name|))
  {
    hide Pieces;
    PieceUnits(name, PIECE * i, 5);
    PieceUnits(name, PIECE * i + 5, 6);
    PieceUnits(name, PIECE * i + 11, 2);
  }

  lemma PieceUnits(name: Units, from: nat, count: nat)
    ensures forall c :: 0 <= c < count ==> UnitAt(Piece(name, from, count)[c], name, from + c)
  {
    forall c | 0 <= c < count
      ensures UnitAt(Piece(name, from, count)[c], name, from + c)
    {
      assert Piece(name, from, count)[c] == Unit(name, from + c);
    }
  }

  lemma PiecesLeast(len: nat)
    ensures if len == 0 then Pieces(len) == 0 else 13 * (Pieces(len) - 1) < len <= 13 * Pieces(len)
  {
  }

  lemma PieceSnoc(name: Units, from: nat, c: nat)
    ensures Piece(name, from, c + 1) == Piece(name, from, c) + [Unit(name, from + c)]
  {
    var longer := Piece(name, from, c) + [Unit(name, from + c)];
    forall i | 0 <= i < c + 1
      ensures Piece(name, from, c + 1)[i] == longer[i]
    {
    }
  }

  /** The characters from `pos` on, and where the copy stops: one behind the terminator at most. */
  method CopyFromName(name: Units, pos: nat, count: nat) returns (dest: Units, pos': nat)
    requires pos <= |name| + 1
    ensures dest == Piece(name, pos, count) && pos' == if pos + count <= |name| + 1 then pos + count else |name| + 1
  {
    dest, pos' := [], pos;
    for c := 0 to count
      invariant dest == Piece(name, pos, c)
      invariant pos' == if pos + c <= |name| + 1 then pos + c else |name| + 1
    {
      PieceSnoc(name, pos, c);
      if pos' < |name| {
        dest := dest + [name[pos']];
        pos' := pos' + 1;
      } else if pos' == |name| {
        dest := dest + [END];
        pos' := pos' + 1;
      } else {
        dest := dest + [PAD];
      }
    }
  }

  /** A piece that starts behind the terminator is all padding, wherever it starts. */
  lemma PieceBehind(name: Units, from: nat, count: nat)
    requires from > |name|
    ensures Piece(name, |name| + 1, count) == Piece(name, from, count)
  {
    forall c | 0 <= c < count
      ensures Piece(name, |name| + 1, count)[c] == Piece(name, from, count)[c]
    {
      assert Piece(name, |name| + 1, count)[c] == Unit(name, |name| + 1 + c) == PAD;
      assert Piece(name, from, count)[c] == Unit(name, from + c) == PAD;
    }
  }

  method EncodePiece(name: Units, sum: nat, i: nat) returns (e: LongEntry)
    requires PIECE * i <= |name|
    ensures e == EntryOf(name, sum, i)
  {
    var order := i + 1;
    if i == Pieces(|name|) - 1 {
      order := order + LAST_ENTRY;
    }
    var name1, pos := CopyFromName(name, PIECE * i, 5);
    var name2, pos2 := CopyFromName(name, pos, 6);
    var name3, pos3 := CopyFromName(name, pos2, 2);
    if pos < PIECE * i + 5 {
      PieceBehind(name, PIECE * i + 5, 6);
    }
    if pos2 < PIECE * i + 11 {
      PieceBehind(name, PIECE * i + 11, 2);
    }
    e := LongEntry(order, name1, ATTR_LONG_NAME, 0, sum, name2, 0, name3);
  }

  /** write_lfn_entries: the pieces go into the directory last piece first, each with the short name's checksum. */
  method WriteLfnEntries(entries: array<LongEntry>, start: nat, name: Units, short: Units)
    requires start + Pieces(|name|) <= entries.Length && |short| == SHORT
    modifies entries
    ensures entries[start..start + Pieces(|name|)] == Entries(name, CheckSum(short))
    ensures LaidOut(entries[start..start + Pieces(|name|)], name, CheckSum(short))
    ensures entries[..start] == old(entries[..start])
    ensures entries[start + Pieces(|name|)..] == old(entries[start + Pieces(|name|)..])
  {
    hide LaidOut;
    var n := Pieces(|name|);
    var sum := ChkSum(short);
    EntriesLaidOut(name, sum);
    var i := n;
    while i > 0
      invariant i <= n
      invariant forall j :: 0 <= j < n - i ==> entries[start + j] == Entries(name, sum)[j]
      invariant forall j :: 0 <= j < entries.Length && !(start <= j < start + n) ==> entries[j] == old(entries[j])
    {
      i := i - 1;
      var e := EncodePiece(name, sum, i);
      entries[start + (n - 1 - i)] := e;
    }
  }

  // Decoding

  /** What is in front of the first terminator or padding, and at most `room` of it. */
  function Text(us: Units, room: nat): (t: Units)
    ensures |t| <= room && |t| <= |us|
  {
    if us == [] || room == 0 || us[0] == END || us[0] == PAD then []
    else
      var t := Text(us[1..], room - 1);
      [us[0] % 0x100] + t
  }

  lemma {:induction false} TextConcat(a: Units, b: Units, room: nat)
    ensures |Text(a, room)| < |a| ==> Text(a + b, room) == Text(a, room)
    ensures |Text(a, room)| == |a| ==> |a| <= room && Text(a + b, room) == Text(a, room) + Text(b, room - |a|)
  {
    if a == [] {
      assert a + b == b;
    } else if room > 0 && a[0] != END && a[0] != PAD {
      assert (a + b)[1..] == a[1..] + b;
      TextConcat(a[1..], b, room - 1);
    }
  }

  lemma TextOne(us: Units, i: nat, room: nat)
    requires i < |us| && |Text(us[..i], room)| == i
    ensures i < room && us[i] != END && us[i] != PAD ==>
              |Text(us[..i + 1], room)| == i + 1 && Text(us[..i + 1], room) == Text(us[..i], room) + [us[i] % 0x100]
    ensures !(i < room && us[i] != END && us[i] != PAD) ==> Text(us, room) == Text(us[..i], room)
  {
    TextConcat(us[..i], [us[i]], room);
    TextConcat(us[..i], us[i..], room);
    assert us[..i] + [us[i]] == us[..i + 1] && us[..i] + us[i..] == us;
    assert Text([us[i]][1..], 0) == [];
  }

  const BUFFER: nat := 256

  /** Characters are copied to the buffer until one ends the name or the buffer is full. */
  method CopyChars(src: Units, buffer: array<nat>, pos: nat) returns (ok: bool, pos': nat)
    requires buffer.Length == BUFFER && pos < BUFFER
    modifies buffer
    ensures pos' < BUFFER && buffer[..pos'] == old(buffer[..pos]) + Text(src, BUFFER - 1 - pos)
    ensures ok <==> |Text(src, BUFFER - 1 - pos)| == |src|
  {
    var room := BUFFER - 1 - pos;
    pos' := pos;
    for i := 0 to |src|
      invariant pos' == pos + i < BUFFER && |Text(src[..i], room)| == i
      invariant buffer[..pos'] == old(buffer[..pos]) + Text(src[..i], room)
    {
      TextOne(src, i, room);
      if src[i] == END || src[i] == PAD {
        return false, pos';
      }
      if pos' >= BUFFER - 1 {
        return false, pos';
      }
      buffer[pos'] := src[i] % 0x100;
      pos' := pos' + 1;
    }
    assert src[..|src|] == src;
    ok := true;
  }

  method CopyLfnPart(e: LongEntry, buffer: array<nat>, pos: nat) returns (pos': nat)
    requires buffer.Length == BUFFER && pos < BUFFER
    modifies buffer
    ensures pos' < BUFFER && buffer[..pos'] == old(buffer[..pos]) + Text(e.AllUnits(), BUFFER - 1 - pos)
  {
    hide Text;
    var room := BUFFER - 1 - pos;
    TextConcat(e.name1, e.name2 + e.name3, room);
    assert e.name1 + (e.name2 + e.name3) == e.AllUnits();
    var ok;
    ok, pos' := CopyChars(e.name1, buffer, pos);
    if !ok {
      return;
    }
    TextConcat(e.name2, e.name3, room - |e.name1|);
    ok, pos' := CopyChars(e.name2, buffer, pos');
    if !ok {
      return;
    }
    ok, pos' := CopyChars(e.name3, buffer, pos');
  }

  /** The name that pieces in this order make. */
  function Assemble(parts: seq<LongEntry>): (name: Units)
    ensures |name| < BUFFER
  {
    if parts == [] then []
    else
      var name := Assemble(parts[..|parts| - 1]);
      name + Text(parts[|parts| - 1].AllUnits(), BUFFER - 1 - |name|)
  }

  // Round trip

  function Min(a: nat, b: nat): nat {
    if a < b then a else b
  }

  /** A piece decodes to its part of the name. */
  lemma {:induction false} TextPiece(name: Units, from: nat, count: nat, room: nat)
    requires IsName(name) && from <= |name| && |name| - from <= room
    ensures Text(Piece(name, from, count), room) == name[from..Min(from + count, |name|)]
    decreases count
  {
    if count > 0 {
      assert Piece(name, from, count)[0] == Unit(name, from);
      if from < |name| {
        PieceTail(name, from, count);
        TextPiece(name, from + 1, count - 1, room - 1);
      }
    }
  }

  lemma PieceTail(name: Units, from: nat, count: nat)
    requires count > 0
    ensures Piece(name, from, count)[1..] == Piece(name, from + 1, count - 1)
  {
    forall i | 0 <= i < count - 1
      ensures Piece(name, from, count)[1..][i] == Piece(name, from + 1, count - 1)[i]
    {
      assert Piece(name, from, count)[i + 1] == Unit(name, from + (i + 1));
    }
  }

  lemma PieceSplit(name: Units, from: nat, a: nat, b: nat)
    ensures Piece(name, from, a) + Piece(name, from + a, b) == Piece(name, from, a + b)
  {
    var whole := Piece(name, from, a) + Piece(name, from + a, b);
    forall i | 0 <= i < a + b
      ensures whole[i] == Piece(name, from, a + b)[i]
    {
      if i >= a {
        assert whole[i] == Piece(name, from + a, b)[i - a];
        assert from + a + (i - a) == from + i;
      }
    }
  }

  lemma EntryUnits(name: Units, sum: nat, i: nat)
    ensures EntryOf(name, sum, i).AllUnits() == Piece(name, PIECE * i, PIECE)
  {
    PieceSplit(name, PIECE * i, 5, 6);
    PieceSplit(name, PIECE * i, 11, 2);
  }

  /** The first `k` pieces of a name, first piece first. */
  function FirstPieces(name: Units, sum: nat, k: nat): (ps: seq<LongEntry>)
    ensures |ps| == k
  {
    seq(k, i requires 0 <= i < k => EntryOf(name, sum, i))
  }

  lemma FirstPiecesSnoc(name: Units, sum: nat, k: nat)
    requires k > 0
    ensures FirstPieces(name, sum, k) == FirstPieces(name, sum, k - 1) + [EntryOf(name, sum, k - 1)]
  {
    hide EntryOf;
  }

  lemma FitsBuffer(name: Units)
    requires IsName(name)
    ensures |name| <= BUFFER - 1
  {
  }

  lemma MinIs(a: nat, b: nat)
    ensures Min(a, b) <= a && Min(a, b) <= b && (a <= b ==> Min(a, b) == a)
  {
  }

  lemma AssembleStep(name: Units, sum: nat, k: nat)
    requires IsName(name) && 0 < k <= Pieces(|name|) && PIECE * (k - 1) <= |name|
    requires Assemble(FirstPieces(name, sum, k - 1)) == name[..PIECE * (k - 1)]
    ensures Assemble(FirstPieces(name, sum, k)) == name[..Min(PIECE * k, |name|)]
  {
    hide *;
    PieceInName(|name|, k);
    FitsBuffer(name);
    var from, to := PIECE * (k - 1), Min(PIECE * k, |name|);
    MinIs(PIECE * k, |name|);
    MinIs(from, to);
    FirstPiecesSnoc(name, sum, k);
    AssembleSnoc(FirstPieces(name, sum, k - 1), EntryOf(name, sum, k - 1));
    EntryUnits(name, sum, k - 1);
    TextPiece(name, from, PIECE, BUFFER - 1 - from);
    FromTo(PIECE * k, |name|, from);
    assert name[..from] + name[from..to] == name[..to];
  }

  lemma FromTo(a: nat, b: nat, from: nat)
    requires from <= a && from <= b
    ensures from <= Min(a, b)
  {
  }

  lemma {:induction false} AssembleFirst(name: Units, sum: nat, k: nat)
    requires IsName(name) && k <= Pieces(|name|)
    ensures Assemble(FirstPieces(name, sum, k)) == name[..Min(PIECE * k, |name|)]
  {
    if k > 0 {
      hide Assemble;
      hide FirstPieces;
      AssembleFirst(name, sum, k - 1);
      PieceInName(|name|, k);
      AssembleStep(name, sum, k);
    }
  }

  /** Each piece has a character of the name. */
  lemma PieceInName(len: nat, k: nat)
    requires 0 < k <= Pieces(len)
    ensures PIECE * (k - 1) < len && PIECE * (k - 1) + PIECE == PIECE * k
  {
  }

  /** Pieces put together in the order of the name give the name back. */
  lemma AssembleName(name: Units, sum: nat)
    requires IsName(name)
    ensures Assemble(FirstPieces(name, sum, Pieces(|name|))) == name
  {
    AssembleFirst(name, sum, Pieces(|name|));
    assert name[..|name|] == name;
  }

  function Reversed(es: seq<LongEntry>): (r: seq<LongEntry>)
    ensures |r| == |es|
  {
    seq(|es|, i requires 0 <= i < |es| => es[|es| - 1 - i])
  }

  lemma EntriesReversed(name: Units, sum: nat)
    ensures Reversed(Entries(name, sum)) == FirstPieces(name, sum, Pieces(|name|))
  {
    var n := Pieces(|name|);
    forall i | 0 <= i < n
      ensures Reversed(Entries(name, sum))[i] == FirstPieces(name, sum, n)[i]
    {
      assert Entries(name, sum)[n - 1 - i] == EntryOf(name, sum, n - 1 - (n - 1 - i));
    }
  }

  lemma AssembleSnoc(parts: seq<LongEntry>, e: LongEntry)
    ensures Assemble(parts + [e]) == Assemble(parts) + Text(e.AllUnits(), BUFFER - 1 - |Assemble(parts)|)
  {
    hide Text;
    hide e.AllUnits;
    var whole := parts + [e];
    assert whole != [] && |whole| - 1 == |parts| && whole[|parts|] == e;
    assert whole[..|parts|] == parts;
  }

  method AppendPart(buffer: array<nat>, pos: nat, e: LongEntry, ghost parts: seq<LongEntry>) returns (pos': nat)
    requires buffer.Length == BUFFER && pos < BUFFER && buffer[..pos] == Assemble(parts)
    modifies buffer
    ensures pos' < BUFFER && buffer[..pos'] == Assemble(parts + [e])
  {
    hide Text;
    hide Assemble;
    AssembleSnoc(parts, e);
    pos' := CopyLfnPart(e, buffer, pos);
  }

  /** The name in read_directory: the entries in front of a short entry, the last one first. */
  method ReadName(es: seq<LongEntry>) returns (name: Units)
    ensures name == Assemble(Reversed(es))
  {
    hide Text;
    hide Assemble;
    ghost var parts := Reversed(es);
    var buffer := new nat[BUFFER];
    var pos: nat := 0;
    var j: nat := |es|;
    NothingAssembled();
    while j > 0
      invariant j <= |es| && pos < BUFFER && buffer[..pos] == Assemble(parts[..|es| - j])
    {
      j := j - 1;
      ghost var k := |es| - 1 - j;
      assert parts[..k] + [es[j]] == parts[..k + 1];
      pos := AppendPart(buffer, pos, es[j], parts[..k]);
    }
    assert parts[..|es|] == parts;
    name := buffer[..pos];
  }

  lemma NothingAssembled()
    ensures Assemble([]) == []
  {
  }

  method JoinName(a: array<LongEntry>) returns (name: Units)
    ensures name == Assemble(a[..])
  {
    hide Text;
    hide Assemble;
    var buffer := new nat[BUFFER];
    var pos: nat := 0;
    NothingAssembled();
    for l := 0 to a.Length
      invariant pos < BUFFER && buffer[..pos] == Assemble(a[..l])
    {
      assert a[..l] + [a[l]] == a[..l + 1];
      pos := AppendPart(buffer, pos, a[l], a[..l]);
    }
    assert a[..a.Length] == a[..];
    name := buffer[..pos];
  }

  // Sorting by the order field

  function Key(e: LongEntry): int {
    e.Order()
  }

  /** The last `done` entries are in their places. */
  ghost predicate Settled(s: seq<LongEntry>, done: nat) {
    forall i, j :: 0 <= i < j < |s| && |s| - done <= j ==> Key(s[i]) <= Key(s[j])
  }

  /** None of the first entries has a larger order than the one at `b`. */
  ghost predicate Topped(s: seq<LongEntry>, b: nat) {
    b < |s| && forall i :: 0 <= i <= b ==> Key(s[i]) <= Key(s[b])
  }

  function Exchanged(s: seq<LongEntry>, b: nat): seq<LongEntry>
    requires b + 1 < |s|
  {
    s[b := s[b + 1]][b + 1 := s[b]]
  }

  lemma ExchangedMultiset(s: seq<LongEntry>, b: nat)
    requires b + 1 < |s|
    ensures multiset(Exchanged(s, b)) == multiset(s)
  {
  }

  lemma ExchangedOrder(s: seq<LongEntry>, b: nat, done: nat)
    requires b + 1 < |s| - done && Settled(s, done) && Topped(s, b) && Key(s[b]) > Key(s[b + 1])
    ensures Settled(Exchanged(s, b), done) && Topped(Exchanged(s, b), b + 1)
  {
    hide Key;
  }

  lemma SettledMore(s: seq<LongEntry>, m: nat)
    requires m < |s| && Settled(s, |s| - 1 - m) && Topped(s, m)
    ensures Settled(s, |s| - m)
  {
    hide Key;
  }

  /** One pass: of the first `m + 1` entries one with the largest order ends up at `m`. */
  method Pass(a: array<LongEntry>, m: nat)
    requires m < a.Length && Settled(a[..], a.Length - 1 - m)
    modifies a
    ensures multiset(a[..]) == multiset(old(a[..])) && Settled(a[..], a.Length - m)
  {
    hide Key;
    hide Settled;
    for b := 0 to m
      invariant multiset(a[..]) == multiset(old(a[..]))
      invariant Settled(a[..], a.Length - 1 - m) && Topped(a[..], b)
    {
      if Key(a[b]) > Key(a[b + 1]) {
        ghost var s := a[..];
        ExchangedMultiset(s, b);
        ExchangedOrder(s, b, a.Length - 1 - m);
        hide Topped;
        a[b], a[b + 1] := a[b + 1], a[b];
        assert a[..] == Exchanged(s, b);
      }
    }
    SettledMore(a[..], m);
  }

  /** The bubble sort of delete_directory_entry_in_directory. */
  method SortByOrder(a: array<LongEntry>)
    requires a.Length > 0
    modifies a
    ensures multiset(a[..]) == multiset(old(a[..])) && KlibSort.Sorted(a[..], Key, 0, a.Length)
  {
    hide Key;
    hide Settled;
    var n := a.Length;
    NoneSettled(a[..]);
    for done := 0 to n - 1
      invariant multiset(a[..]) == multiset(old(a[..])) && Settled(a[..], done)
    {
      Pass(a, n - 1 - done);
    }
    AllSettled(a[..]);
  }

  lemma NoneSettled(s: seq<LongEntry>)
    ensures Settled(s, 0)
  {
  }

  lemma AllSettled(s: seq<LongEntry>)
    requires |s| > 0 && Settled(s, |s| - 1)
    ensures KlibSort.Sorted(s, Key, 0, |s|)
  {
  }

  ghost predicate Increasing(t: seq<LongEntry>) {
    forall i, j :: 0 <= i < j < |t| ==> Key(t[i]) < Key(t[j])
  }

  lemma InitMultiset(s: seq<LongEntry>)
    requires s != []
    ensures multiset(s) == multiset(s[..|s| - 1]) + multiset{s[|s| - 1]}
  {
    assert s == s[..|s| - 1] + [s[|s| - 1]];
  }

  lemma InitSame(s: seq<LongEntry>, t: seq<LongEntry>)
    requires |s| == |t| > 0 && multiset(s) == multiset(t) && s[|s| - 1] == t[|t| - 1]
    ensures multiset(s[..|s| - 1]) == multiset(t[..|t| - 1])
  {
    InitMultiset(s);
    InitMultiset(t);
    var a, b, x := multiset(s[..|s| - 1]), multiset(t[..|t| - 1]), multiset{s[|s| - 1]};
    assert a == (a + x) - x && b == (b + x) - x;
  }

  lemma SameLast(s: seq<LongEntry>, t: seq<LongEntry>)
    requires |s| == |t| > 0 && multiset(s) == multiset(t) && KlibSort.Sorted(s, Key, 0, |s|) && Increasing(t)
    ensures s[|s| - 1] == t[|t| - 1]
  {
    hide Key;
    var x, y := s[|s| - 1], t[|t| - 1];
    assert x in multiset(s) && y in multiset(t);
    var i :| 0 <= i < |t| && t[i] == x;
    var j :| 0 <= j < |s| && s[j] == y;
  }

  /** Entries with different orders have one sorted arrangement. */
  lemma {:induction false} SortedOnce(s: seq<LongEntry>, t: seq<LongEntry>)
    requires multiset(s) == multiset(t) && KlibSort.Sorted(s, Key, 0, |s|) && Increasing(t)
    ensures s == t
    decreases |s|
  {
    hide *;
    SameLength(s, t);
    if s != [] {
      var n := |s| - 1;
      SameLast(s, t);
      InitSame(s, t);
      InitOrdered(s, t);
      SortedOnce(s[..n], t[..n]);
      assert s == s[..n] + [s[n]] && t == t[..n] + [t[n]];
    }
  }

  lemma SameLength(s: seq<LongEntry>, t: seq<LongEntry>)
    requires multiset(s) == multiset(t)
    ensures |s| == |t|
  {
    assert |s| == |multiset(s)| && |t| == |multiset(t)|;
  }

  lemma InitOrdered(s: seq<LongEntry>, t: seq<LongEntry>)
    requires s != [] && t != [] && KlibSort.Sorted(s, Key, 0, |s|) && Increasing(t)
    ensures KlibSort.Sorted(s[..|s| - 1], Key, 0, |s| - 1) && Increasing(t[..|t| - 1])
  {
    hide Key;
  }

  lemma OrderOf(name: Units, sum: nat, i: nat)
    requires IsName(name) && i < Pieces(|name|)
    ensures Key(EntryOf(name, sum, i)) == i + 1
  {
    assert Pieces(|name|) <= 20;
  }

  lemma ReversedMultiset(es: seq<LongEntry>)
    ensures multiset(Reversed(es)) == multiset(es)
  {
    if es != [] {
      var n := |es| - 1;
      ReversedMultiset(es[..n]);
      assert Reversed(es) == [es[n]] + Reversed(es[..n]);
      assert es == es[..n] + [es[n]];
    }
  }

  /** The name in the delete path: the entries sorted by order. */
  method SortedName(es: seq<LongEntry>) returns (name: Units, ghost sorted: seq<LongEntry>)
    requires es != []
    ensures multiset(sorted) == multiset(es) && KlibSort.Sorted(sorted, Key, 0, |sorted|) && |sorted| == |es|
    ensures name == Assemble(sorted)
  {
    hide Key;
    hide Assemble;
    var a := new LongEntry[|es|](i requires 0 <= i < |es| => es[i]);
    assert a[..] == es;
    SortByOrder(a);
    sorted := a[..];
    name := JoinName(a);
  }

  /** Sorting the entries of a name puts the first piece first. */
  lemma SortedEntries(name: Units, sum: nat, sorted: seq<LongEntry>)
    requires IsName(name) && multiset(sorted) == multiset(Entries(name, sum))
    requires KlibSort.Sorted(sorted, Key, 0, |sorted|)
    ensures sorted == FirstPieces(name, sum, Pieces(|name|))
  {
    var t := FirstPieces(name, sum, Pieces(|name|));
    EntriesReversed(name, sum);
    ReversedMultiset(Entries(name, sum));
    forall i, j | 0 <= i < j < |t|
      ensures Key(t[i]) < Key(t[j])
    {
      OrderOf(name, sum, i);
      OrderOf(name, sum, j);
    }
    SortedOnce(sorted, t);
  }

  /** What is written for a name is read back as the name, in a directory listing and in a deletion. */
  method RoundTrip(name: Units, short: Units) returns (listed: Units, deleted: Units)
    requires IsName(name) && |short| == SHORT
    ensures listed == name && deleted == name
  {
    hide Assemble;
    hide Entries;
    hide FirstPieces;
    hide Key;
    var n := Pieces(|name|);
    var entries := new LongEntry[n](_ => LongEntry(0, [], 0, 0, 0, [], 0, []));
    ghost var sum := CheckSum(short);
    WriteLfnEntries(entries, 0, name, short);
    var es := entries[..];
    assert es == entries[0..n];
    AssembleName(name, sum);
    EntriesReversed(name, sum);
    listed := ReadName(es);
    ghost var sorted;
    deleted, sorted := SortedName(es);
    SortedEntries(name, sum, sorted);
  }
}
