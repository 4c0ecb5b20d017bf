/**
 * File names in FAT32 directory slots (kernel/vfs/fat32.c: get_direnty_no, fill_direntry and the name parsing of
 * fat32_lookup_direntry and fat32_readdir; kernel/vfs/open.c: generic_check_filename).
 */
module DirName {
  import opened Common

  const DIRENTRY_LEN := 32
  const FILENAME_MX_LEN := 255
  /** The longest name whose slots fit the 255-byte buffer of the parser. */
  const LONGEST_NAME := 246

  const SPACE: u8 := 0x20
  const DOT: u8 := 0x2e
  const LONGNAME: u8 := 0x0f
  const VOLNAME: u8 := 0x08
  const SUBDIR: u8 := 0x10
  const ARCHIVE: u8 := 0x20

  type Name = seq<u8>

  /** One directory slot, the 32 bytes of `union data`. */
  type Slot = s: seq<u8> | |s| == DIRENTRY_LEN witness seq(DIRENTRY_LEN, _ => 0)

  /** `last_type` as far as files are created and looked up. */
  datatype FileType = Norm | Dir

  function Upper(c: u8): u8 {
    if 0x61 <= c <= 0x7a then c - 0x20 else c
  }

  function UpperAll(s: seq<u8>): (u: seq<u8>)
    ensures |u| == |s| && forall i :: 0 <= i < |s| ==> u[i] == Upper(s[i])
  {
    seq(|s|, i requires 0 <= i < |s| => Upper(s[i]))
  }

  /** One byte, or the two cases of one ASCII letter. */
  predicate SameLetter(x: u8, y: u8) {
    x == y || (0x61 <= x <= 0x7a && y == x - 0x20) || (0x61 <= y <= 0x7a && x == y - 0x20)
  }

  /** The names are equal up to the case of ASCII letters. */
  predicate SameName(a: Name, b: Name) {
    |a| == |b| && forall i :: 0 <= i < |a| ==> SameLetter(a[i], b[i])
  }

  predicate NoLowerCase(s: seq<u8>) {
    forall i :: 0 <= i < |s| ==> !(0x61 <= s[i] <= 0x7a)
  }

  /** Upper-casing gives the one form of a name without small letters, so it decides whether names are the same. */
  lemma UpperAllIff(a: Name, b: Name)
    ensures UpperAll(a) == UpperAll(b) <==> SameName(a, b)
    ensures UpperAll(a) == b <==> SameName(a, b) && NoLowerCase(b)
  {
    assert UpperAll(a) == UpperAll(b) ==> |a| == |b| && forall i :: 0 <= i < |a| ==> Upper(a[i]) == UpperAll(b)[i];
    assert NoLowerCase(b) ==> UpperAll(b) == b;
    assert NoLowerCase(UpperAll(a));
  }

  // ---- splitting a name at its last dot --------------------------------------------------------------------

  /** The index of the last '.' among the first `k` bytes, or -1. */
  function LastDot(name: Name, k: nat): (d: int)
    requires k <= |name|
    ensures -1 <= d < k
    ensures d >= 0 ==> name[d] == DOT
    ensures forall i :: d < i < k ==> name[i] != DOT
  {
    if k == 0 then -1 else if name[k - 1] == DOT then k - 1 else LastDot(name, k - 1)
  }

  predicate HasDot(name: Name) {
    DOT in name
  }

  lemma HasDotIff(name: Name)
    ensures HasDot(name) <==> LastDot(name, |name|) >= 0
  {
    var d := LastDot(name, |name|);
    if d >= 0 {
      assert name[d] in name;
    }
  }

  function FileLen(name: Name): (n: nat)
    ensures n <= |name|
  {
    var d := LastDot(name, |name|);
    if d < 0 then |name| else d
  }

  function ExtBase(name: Name): (n: nat)
    ensures FileLen(name) <= n <= |name|
  {
    var d := LastDot(name, |name|);
    if d < 0 then |name| else d + 1
  }

  function ExtLen(name: Name): nat {
    |name| - ExtBase(name)
  }

  // ---- printing --------------------------------------------------------------------------------------------

  /** `get_direnty_no`: one slot for a short name, else the 8.3 slot and one per started group of 13 with terminator. */
  function SlotCount(name: Name): (n: nat)
    ensures n >= 1 && (n > 1 <==> |name| > 11)
  {
    if |name| <= 11 then 1 else 2 + |name| / 13
  }

  /** Bytes of the 11-byte field for a name that needs only one slot. */
  function ShortField(name: Name): (f: seq<u8>)
    ensures |f| == 11
  {
    seq(11, i requires 0 <= i < 11 =>
      if i < 8 then (if i < FileLen(name) then Upper(name[i]) else SPACE)
      else if i < ExtLen(name) + 8 then Upper(name[ExtBase(name) + i - 8]) else SPACE)
  }

  /** Bytes of the 11-byte field of the 8.3 slot behind a long name: six characters, "~1", the extension. */
  function AliasField(name: Name): (f: seq<u8>)
    requires |name| > 11
    ensures |f| == 11
  {
    seq(11, i requires 0 <= i < 11 =>
      if i < 6 then Upper(name[i])
      else if i == 6 then 0x7e
      else if i == 7 then 0x31
      else if i < ExtLen(name) + 8 then Upper(name[ExtBase(name) + i - 8]) else SPACE)
  }

  /** The 11-byte name field of a file's 8.3 slot. */
  function NameField(name: Name): (f: seq<u8>)
    ensures |f| == 11
  {
    if SlotCount(name) == 1 then ShortField(name) else AliasField(name)
  }

  /** `s` cut or filled with spaces to `n` bytes. */
  function Padded(s: seq<u8>, n: nat): (r: seq<u8>)
    ensures |r| == n
  {
    if |s| >= n then s[..n] else s + seq(n - |s|, _ => SPACE)
  }

  /**
   * The name field holds, without small letters, what stands before the last dot and behind it, or for a long name its
   * first six bytes, "~1" and what stands behind the last dot.
   */
  lemma NameFieldMeans(name: Name)
    ensures NoLowerCase(NameField(name))
    ensures var head := if |name| <= 11 then name[..FileLen(name)] else name[..6] + [0x7e, 0x31];
            SameName(NameField(name), Padded(head, 8) + Padded(name[ExtBase(name)..], 3))
  {
    hide FileLen, ExtBase, Padded, Upper, SameLetter;
    var head, ext := if |name| <= 11 then name[..FileLen(name)] else name[..6] + [0x7e, 0x31], name[ExtBase(name)..];
    var l, r := NameField(name), Padded(head, 8) + Padded(ext, 3);
    forall i | 0 <= i < 11
      ensures SameLetter(l[i], r[i]) && !(0x61 <= l[i] <= 0x7a)
    {
      UpperMeans(r[i]);
      if i < 8 {
        PaddedAt(head, 8, i);
        assert r[i] == if i < |head| then head[i] else SPACE;
        if |name| <= 11 {
          assert l[i] == ShortField(name)[i];
        } else {
          assert l[i] == AliasField(name)[i];
        }
      } else {
        PaddedAt(ext, 3, i - 8);
        FieldBehind(name, i);
      }
    }
  }

  lemma FieldBehind(name: Name, i: nat)
    requires 8 <= i < 11
    ensures NameField(name)[i] ==
            if i - 8 < |name[ExtBase(name)..]| then Upper(name[ExtBase(name)..][i - 8]) else SPACE
  {
    var ext := name[ExtBase(name)..];
    assert i < ExtLen(name) + 8 ==> name[ExtBase(name) + i - 8] == ext[i - 8];
    hide Upper, FileLen, ExtBase, LastDot;
    if |name| <= 11 {
      assert ShortField(name)[i] == if i < ExtLen(name) + 8 then Upper(name[ExtBase(name) + i - 8]) else SPACE;
    } else {
      assert AliasField(name)[i] == if i < ExtLen(name) + 8 then Upper(name[ExtBase(name) + i - 8]) else SPACE;
    }
  }

  lemma UpperMeans(c: u8)
    ensures SameLetter(Upper(c), c) && !(0x61 <= Upper(c) <= 0x7a)
    ensures SameLetter(c, c)
  {
  }

  lemma PaddedAt(s: seq<u8>, n: nat, i: nat)
    requires i < n
    ensures Padded(s, n)[i] == if i < |s| then s[i] else SPACE
  {
  }

  function TypeAttr(t: FileType): u8 {
    if t == Norm then ARCHIVE else SUBDIR
  }

  /** The 8.3 slot; `cMs` is whatever the caller's buffer held at the one byte the code leaves alone. */
  function ShortSlot(name: Name, t: FileType, ino: u32, cMs: u8): (s: Slot)
    ensures s[..11] == NameField(name) && s[11] == TypeAttr(t)
    ensures s[20] == ino / 0x1_0000 % 0x100 && s[21] == 0 && s[26] == ino % 0x100 && s[27] == 0
  {
    NameField(name) + [TypeAttr(t), 0x18, cMs, 0xc8, 0x95, 0x95, 0x4d, 0x95, 0x4d, ino / 0x1_0000 % 0x100, 0,
             0xc8, 0x95, 0x95, 0x4d, ino % 0x100, 0, 0, 0, 0, 0]
  }

  /** The name buffer that long slots are cut from: the name's two halves with a '.' in between, zero-filled. */
  function LongBuf(name: Name): (b: seq<u8>)
    requires |name| <= LONGEST_NAME
    ensures |b| == FILENAME_MX_LEN
  {
    name[..FileLen(name)] + [DOT] + name[ExtBase(name)..] +
    seq(FILENAME_MX_LEN - FileLen(name) - 1 - ExtLen(name), _ => 0)
  }

  /** The low byte of character `j` of the group that starts at `base`; past the end of the name it is padding. */
  function CharAt(buf: seq<u8>, base: nat, end: nat, j: nat): u8
    requires end < |buf|
  {
    if base + j > end then 0xff else buf[base + j]
  }

  /** Its high byte. */
  function HighAt(base: nat, end: nat, j: nat): u8 {
    if base + j > end then 0xff else 0
  }

  /** Character `j` of long slot `index`. */
  function LongChar(name: Name, index: nat, j: nat): u8
    requires |name| <= LONGEST_NAME && index > 0
  {
    CharAt(LongBuf(name), (index - 1) * 13, |name|, j)
  }

  function Ordinal(index: nat, total: nat): u8
    requires 0 < index < 0x40 && index < total
  {
    if index == total - 1 then index + 0x40 else index
  }

  /** Bytes 0 to 13 of a long slot: the ordinal, the first five characters, the long-name mark. */
  function LongHead(b: seq<u8>, base: nat, end: nat, ordinal: u8): (h: seq<u8>)
    requires base <= end < |b|
    ensures |h| == 14
  {
    [ordinal, CharAt(b, base, end, 0), 0, CharAt(b, base, end, 1), HighAt(base, end, 1),
     CharAt(b, base, end, 2), HighAt(base, end, 2),
     CharAt(b, base, end, 3), HighAt(base, end, 3), CharAt(b, base, end, 4), HighAt(base, end, 4), LONGNAME, 0, 0x2a]
  }

  /** Bytes 14 to 31: the other eight characters around two zero bytes. */
  function LongTail(b: seq<u8>, base: nat, end: nat): (t: seq<u8>)
    requires base <= end < |b|
    ensures |t| == 18
  {
    [CharAt(b, base, end, 5), HighAt(base, end, 5), CharAt(b, base, end, 6), HighAt(base, end, 6),
     CharAt(b, base, end, 7), HighAt(base, end, 7), CharAt(b, base, end, 8), HighAt(base, end, 8),
     CharAt(b, base, end, 9), HighAt(base, end, 9), CharAt(b, base, end, 10), HighAt(base, end, 10), 0, 0,
     CharAt(b, base, end, 11), HighAt(base, end, 11), CharAt(b, base, end, 12), HighAt(base, end, 12)]
  }

  /** Long slot number `index`, counted from 1 at the beginning of the name. */
  function LongSlot(name: Name, index: nat, total: nat): (s: Slot)
    requires |name| <= LONGEST_NAME && 0 < index < total && index < 0x40 && (index - 1) * 13 <= |name|
  {
    LongHead(LongBuf(name), (index - 1) * 13, |name|, Ordinal(index, total)) +
    LongTail(LongBuf(name), (index - 1) * 13, |name|)
  }

  /** All slots of a file in directory order: long slots from the last down to the first, then the 8.3 slot. */
  function FileSlots(name: Name, t: FileType, ino: u32, cMs: u8): (s: seq<Slot>)
    requires |name| <= LONGEST_NAME
    ensures |s| == SlotCount(name)
  {
    var total := SlotCount(name);
    seq(total, i requires 0 <= i < total =>
      if i == total - 1 then ShortSlot(name, t, ino, cMs) else LongSlot(name, total - 1 - i, total))
  }

  // ---- parsing ---------------------------------------------------------------------------------------------

  /** The 13 characters of a long slot, at the offsets of `lgfile_mapping`. */
  function LongChunk(s: Slot): (c: seq<u8>)
    ensures |c| == 13
  {
    [s[0x1], s[0x3], s[0x5], s[0x7], s[0x9], s[0xe], s[0x10], s[0x12], s[0x14], s[0x16], s[0x18], s[0x1c], s[0x1e]]
  }

  /** What the parser's buffer holds after the long slots `slots` (highest part of the name first). */
  function NameBuf(slots: seq<Slot>): (b: seq<u8>)
    ensures |b| == 13 * |slots|
  {
    if slots == [] then [] else NameBuf(slots[1..]) + LongChunk(slots[0])
  }

  /** The length after reading the first `j` characters of a chunk: every zero byte sets it. */
  function ChunkLen(chunk: seq<u8>, j: nat, base: nat, len: nat): (r: nat)
    requires j <= |chunk|
  {
    if j == 0 then len
    else if chunk[j - 1] == 0 then base + j - 1
    else ChunkLen(chunk, j - 1, base, len)
  }

  /** The parser's length after `slots`, when it was `len` before; it stays `len` if no character is zero. */
  function NameLen(slots: seq<Slot>, len: nat): nat {
    if slots == [] then len
    else NameLen(slots[1..], ChunkLen(LongChunk(slots[0]), 13, (|slots| - 1) * 13, len))
  }

  /** The bytes before the first space. */
  function UntilSpace(s: seq<u8>): (r: seq<u8>)
    ensures |r| <= |s| && r == s[..|r|] && SPACE !in r
    ensures |r| < |s| ==> s[|r|] == SPACE
  {
    if s == [] || s[0] == SPACE then [] else [s[0]] + UntilSpace(s[1..])
  }

  /** The name that an 8.3 slot stands for. */
  function ShortText(s: Slot): seq<u8> {
    var f, x := UntilSpace(s[..8]), UntilSpace(s[8..11]);
    if x == [] then f else f + [DOT] + x
  }

  /** The first cluster as `fat32_readdir` reads it. */
  function FirstCluster(s: Slot): nat {
    (s[20] as int + s[21] as int * 0x100) * 0x1_0000 + (s[26] as int + s[27] as int * 0x100)
  }

  // ---- the long-name round trip ----------------------------------------------------------------------------

  ghost predicate NonZero(name: Name) {
    forall i :: 0 <= i < |name| ==> name[i] != 0
  }

  /** The name buffer starts with the name; what follows is its terminator only if the name has a dot. */
  lemma LongBufStartsWithName(name: Name)
    requires |name| <= LONGEST_NAME
    ensures LongBuf(name)[..|name|] == name
    ensures LongBuf(name)[|name|] == if HasDot(name) then 0 else DOT
  {
    HasDotIff(name);
    if HasDot(name) {
      var d := LastDot(name, |name|);
      assert name == name[..d] + [DOT] + name[d + 1..];
    } else {
      assert name[..|name|] == name;
    }
  }

  /** The parser reads from a long slot the characters that the writer put there. */
  lemma ChunkOfLongSlot(name: Name, index: nat, total: nat)
    requires |name| <= LONGEST_NAME && 0 < index < total && (index - 1) * 13 <= |name|
    ensures LongChunk(LongSlot(name, index, total)) == seq(13, j requires 0 <= j < 13 => LongChar(name, index, j))
  {
    hide CharAt, HighAt, Ordinal, LongBuf;
  }

  /** Where the 13 characters of a long slot stand, two bytes each. */
  const CHAR_BYTES: seq<nat> := [0x1, 0x3, 0x5, 0x7, 0x9, 0xe, 0x10, 0x12, 0x14, 0x16, 0x18, 0x1c, 0x1e]

  /**
   * A standard reader, which takes characters of 16 bits, finds the name, then its terminator, or a '.' instead if the
   * name has none, and then 0xffff.
   */
  lemma WideCharacter(name: Name, index: nat, total: nat, j: nat)
    requires |name| <= LONGEST_NAME && 0 < index < total && (index - 1) * 13 <= |name| && j < 13
    ensures var s, p := LongSlot(name, index, total), (index - 1) * 13 + j;
            var low, high := s[CHAR_BYTES[j]] as int, s[CHAR_BYTES[j] + 1] as int;
            low + high * 0x100 ==
            if p < |name| then name[p] else if p > |name| then 0xffff else if HasDot(name) then 0 else DOT
  {
    var b, base, p := LongBuf(name), (index - 1) * 13, (index - 1) * 13 + j;
    LongBufStartsWithName(name);
    assert p < |name| ==> b[p] == b[..|name|][p];
    hide LongBuf, HasDot;
    CharacterBytes(b, base, |name|, Ordinal(index, total), j);
  }

  lemma CharacterBytes(b: seq<u8>, base: nat, end: nat, ordinal: u8, j: nat)
    requires base <= end < |b| && j < 13
    ensures var s := LongHead(b, base, end, ordinal) + LongTail(b, base, end);
            s[CHAR_BYTES[j]] == CharAt(b, base, end, j) && s[CHAR_BYTES[j] + 1] == HighAt(base, end, j)
  {
    hide CharAt;
  }

  /** The long slots `n`, `n - 1`, ..., 1 of a name. */
  function LongPart(name: Name, total: nat, n: nat): (s: seq<Slot>)
    requires |name| <= LONGEST_NAME && n < total && (n == 0 || (n - 1) * 13 <= |name|)
    ensures |s| == n
  {
    seq(n, i requires 0 <= i < n => LongSlot(name, n - i, total))
  }

  lemma LongPartStep(name: Name, total: nat, n: nat)
    requires |name| <= LONGEST_NAME && 0 < n < total && (n - 1) * 13 <= |name|
    ensures LongPart(name, total, n)[0] == LongSlot(name, n, total)
    ensures LongPart(name, total, n)[1..] == LongPart(name, total, n - 1)
  {
  }

  /** The parser's buffer holds the padded name: name, terminator, then 0xff. */
  lemma {:induction false} NameBufOfLongPart(name: Name, total: nat, n: nat)
    requires |name| <= LONGEST_NAME && n < total && (n == 0 || (n - 1) * 13 <= |name|)
    ensures forall p :: 0 <= p < 13 * n ==>
      NameBuf(LongPart(name, total, n))[p] == if p > |name| then 0xff else LongBuf(name)[p]
  {
    if n > 0 {
      LongPartStep(name, total, n);
      NameBufOfLongPart(name, total, n - 1);
      ChunkOfLongSlot(name, n, total);
      var chunk, front := LongChunk(LongSlot(name, n, total)), NameBuf(LongPart(name, total, n - 1));
      var b := NameBuf(LongPart(name, total, n));
      assert b == front + chunk;
      hide LongSlot, LongChunk, LongBuf, LongPart, NameBuf;
      forall p | 13 * (n - 1) <= p < 13 * n
        ensures b[p] == if p > |name| then 0xff else LongBuf(name)[p]
      {
        assert b[p] == chunk[p - 13 * (n - 1)];
      }
    }
  }

  lemma {:induction false} ChunkLenNoZero(chunk: seq<u8>, j: nat, base: nat, len: nat)
    requires j <= |chunk| && forall k :: 0 <= k < j ==> chunk[k] != 0
    ensures ChunkLen(chunk, j, base, len) == len
  {
    if j > 0 {
      ChunkLenNoZero(chunk, j - 1, base, len);
    }
  }

  lemma {:induction false} ChunkLenOneZero(chunk: seq<u8>, j: nat, base: nat, len: nat, z: nat)
    requires z < j <= |chunk| && chunk[z] == 0 && forall k :: 0 <= k < j && k != z ==> chunk[k] != 0
    ensures ChunkLen(chunk, j, base, len) == base + z
  {
    if j - 1 != z {
      ChunkLenOneZero(chunk, j - 1, base, len, z);
    }
  }

  /** Slots that lie entirely before the end of the name leave the parser's length alone. */
  lemma {:induction false} NameLenBeforeEnd(name: Name, total: nat, n: nat, len: nat)
    requires |name| <= LONGEST_NAME && n < total && n * 13 <= |name| && NonZero(name)
    ensures NameLen(LongPart(name, total, n), len) == len
  {
    if n > 0 {
      LongPartStep(name, total, n);
      ChunkOfLongSlot(name, n, total);
      LongBufStartsWithName(name);
      var chunk := LongChunk(LongSlot(name, n, total));
      forall j | 0 <= j < 13
        ensures chunk[j] != 0
      {
        assert chunk[j] == name[(n - 1) * 13 + j];
      }
      ChunkLenNoZero(chunk, 13, (n - 1) * 13, len);
      NameLenBeforeEnd(name, total, n - 1, len);
    }
  }

  /** The top chunk holds the end of the name; its only zero is the terminator, if there is one. */
  lemma TopChunk(name: Name, total: nat, z: nat)
    requires 11 < |name| <= LONGEST_NAME && total == SlotCount(name) && NonZero(name)
    requires z == |name| - (total - 2) * 13
    ensures z < 13
    ensures var chunk := LongChunk(LongSlot(name, total - 1, total));
            && (forall j :: 0 <= j < 13 && j != z ==> chunk[j] != 0)
            && (chunk[z] == 0 <==> HasDot(name))
  {
    hide LongSlot, LongChunk, LongBuf;
    ChunkOfLongSlot(name, total - 1, total);
    LongBufStartsWithName(name);
    var chunk := LongChunk(LongSlot(name, total - 1, total));
    forall j | 0 <= j < 13 && j != z
      ensures chunk[j] != 0
    {
      if j < z {
        assert chunk[j] == LongBuf(name)[..|name|][(total - 2) * 13 + j];
      }
    }
    assert chunk[z] == LongBuf(name)[|name|];
  }

  /** The slot with the end of the name sets the length if there is a terminator, and only then. */
  lemma NameLenOfLongPart(name: Name, total: nat, len: nat)
    requires 11 < |name| <= LONGEST_NAME && total == SlotCount(name) && NonZero(name)
    ensures NameLen(LongPart(name, total, total - 1), len) == if HasDot(name) then |name| else len
  {
    var n := total - 1;
    var z := |name| - (n - 1) * 13;
    LongPartStep(name, total, n);
    TopChunk(name, total, z);
    var chunk := LongChunk(LongSlot(name, n, total));
    hide LongSlot, LongChunk, LongPart, HasDot;
    if HasDot(name) {
      ChunkLenOneZero(chunk, 13, (n - 1) * 13, len, z);
      NameLenBeforeEnd(name, total, n - 1, |name|);
    } else {
      ChunkLenNoZero(chunk, 13, (n - 1) * 13, len);
      NameLenBeforeEnd(name, total, n - 1, len);
    }
  }

  /** Parsing the long slots, with `len` left over from earlier, yields exactly `name`. */
  ghost predicate Recovers(slots: seq<Slot>, len: nat, name: Name) {
    && NameLen(slots, len) == |name| <= 13 * |slots|
    && NameBuf(slots)[..|name|] == name
  }

  /**
   * Printing a long name into slots and parsing them back gives the same name exactly when the name has a dot;
   * without one a '.' takes the place of the terminator and the parser keeps the length of whatever it read before.
   */
  lemma LongNameRoundTripIff(name: Name, t: FileType, ino: u32, cMs: u8, len: nat)
    requires 11 < |name| <= LONGEST_NAME && NonZero(name)
    ensures var slots := FileSlots(name, t, ino, cMs);
            Recovers(slots[..|slots| - 1], len, name) <==> HasDot(name) || len == |name|
  {
    var total := SlotCount(name);
    var slots := FileSlots(name, t, ino, cMs);
    assert slots[..total - 1] == LongPart(name, total, total - 1);
    NameLenOfLongPart(name, total, len);
    NameBufOfLongPart(name, total, total - 1);
    LongBufStartsWithName(name);
    var buf := NameBuf(LongPart(name, total, total - 1));
    forall p | 0 <= p < |name|
      ensures buf[p] == name[p]
    {
      assert LongBuf(name)[..|name|][p] == name[p];
    }
    assert buf[..|name|] == name;
  }

  /** A dotless long name, parsed after an entry of another length, does not come back. */
  lemma DotlessNameLost()
    ensures var name: Name := seq(12, _ => 0x61);
            !Recovers(FileSlots(name, Norm, 5, 0)[..1], 0, name)
  {
    var name: Name := seq(12, _ => 0x61);
    assert !HasDot(name);
    LongNameRoundTripIff(name, Norm, 5, 0, 0);
  }

  lemma LongSlotMarks(name: Name, index: nat, total: nat)
    requires |name| <= LONGEST_NAME && 0 < index < total && (index - 1) * 13 <= |name|
    ensures LongSlot(name, index, total)[0] == Ordinal(index, total)
    ensures LongSlot(name, index, total)[11] == LONGNAME
    ensures LongSlot(name, index, total)[12] == 0 && LongSlot(name, index, total)[13] == 0x2a
    ensures LongSlot(name, index, total)[26] == LongSlot(name, index, total)[27] == 0
  {
    hide LongChar, HighAt, Ordinal;
  }

  /** Writer and reader agree on the shape: counts, ordinals in descending order, marks, and usable first bytes. */
  lemma SlotShape(name: Name, t: FileType, ino: u32, cMs: u8)
    requires |name| <= LONGEST_NAME
    ensures var s := FileSlots(name, t, ino, cMs);
            && (forall i :: 0 <= i < |s| - 1 ==>
                 && s[i][11] == 0x0f && s[i][0] == (if i == 0 then 0x40 else 0) + (|s| - 1 - i)
                 && s[i][0] % 0x40 == |s| - 1 - i && s[i][0] != 0 && s[i][0] != 0xe5)
            && s[|s| - 1][11] == if t == Dir then 0x10 else 0x20
  {
    hide ShortSlot, LongSlot;
    var total := SlotCount(name);
    var s := FileSlots(name, t, ino, cMs);
    assert s[total - 1] == ShortSlot(name, t, ino, cMs);
    forall i | 0 <= i < total - 1
      ensures s[i][11] == LONGNAME && s[i][0] == Ordinal(total - 1 - i, total)
    {
      assert s[i] == LongSlot(name, total - 1 - i, total);
      LongSlotMarks(name, total - 1 - i, total);
    }
  }

  /** The one slot of a normal file `readme.txt` in cluster 5. */
  lemma ReadmeExample()
    ensures var name: Name := [0x72, 0x65, 0x61, 0x64, 0x6d, 0x65, 0x2e, 0x74, 0x78, 0x74];
      var slots := FileSlots(name, Norm, 5, 0);
      && |slots| == 1
      && slots[0][..11] == [0x52, 0x45, 0x41, 0x44, 0x4d, 0x45, 0x20, 0x20, 0x54, 0x58, 0x54]
      && slots[0][11..] == [0x20, 0x18, 0, 0xc8, 0x95, 0x95, 0x4d, 0x95, 0x4d, 0, 0, 0xc8, 0x95, 0x95, 0x4d, 5, 0,
                            0, 0, 0, 0]
  {
    var name: Name := [0x72, 0x65, 0x61, 0x64, 0x6d, 0x65, 0x2e, 0x74, 0x78, 0x74];
    assert LastDot(name, 10) == LastDot(name, 9) == LastDot(name, 8) == LastDot(name, 7) == 6;
    var slot := ShortSlot(name, Norm, 5, 0);
    assert slot[11..] == [0x20, 0x18, 0, 0xc8, 0x95, 0x95, 0x4d, 0x95, 0x4d, 0, 0, 0xc8, 0x95, 0x95, 0x4d, 5, 0,
                          0, 0, 0, 0];
  }

  // ---- the 8.3 round trip ----------------------------------------------------------------------------------

  /** The names that an 8.3 slot can hold. */
  predicate Proper83(name: Name) {
    && FileLen(name) <= 8
    && SPACE !in name[..FileLen(name)]
    && (LastDot(name, |name|) >= 0 ==> 1 <= ExtLen(name) <= 3 && SPACE !in name[ExtBase(name)..])
  }

  lemma {:induction false} UntilSpaceAt(s: seq<u8>, k: nat)
    requires k <= |s| && (forall i :: 0 <= i < k ==> s[i] != SPACE) && (k < |s| ==> s[k] == SPACE)
    ensures UntilSpace(s) == s[..k]
  {
    if k > 0 {
      UntilSpaceAt(s[1..], k - 1);
      assert s[..k] == [s[0]] + s[1..][..k - 1];
    }
  }

  /** Reading up to the first space of a field into which `s` was put, cut or padded to the field's width. */
  lemma UntilSpaceOfField(s: seq<u8>, field: seq<u8>)
    requires forall i :: 0 <= i < |field| ==> field[i] == if i < |s| then Upper(s[i]) else SPACE
    ensures UntilSpace(field) == UpperAll(s) <==> |s| <= |field| && SPACE !in s
    ensures |UntilSpace(field)| <= |s|
  {
    hide UntilSpace;
    var u := UntilSpace(field);
    assert forall i :: 0 <= i < |u| ==> u[i] == field[i] && u[i] in u;
    assert forall i :: 0 <= i < |s| ==> s[i] in s && (Upper(s[i]) == SPACE <==> s[i] == SPACE);
    if |s| <= |field| && SPACE !in s {
      UntilSpaceAt(field, |s|);
      assert field[..|s|] == UpperAll(s);
    }
  }

  /** The two parts of a field that have no spaces in them come back joined by a dot, or without one. */
  lemma ShortTextOfParts(s: Slot, f: seq<u8>, x: seq<u8>)
    requires |f| <= 8 && |x| <= 3 && SPACE !in f && SPACE !in x && s[..11] == Padded(f, 8) + Padded(x, 3)
    ensures ShortText(s) == if x == [] then f else f + [DOT] + x
  {
    assert s[..8] == s[..11][..8] == Padded(f, 8) && s[8..11] == s[..11][8..] == Padded(x, 3);
    UntilSpaceAt(s[..8], |f|);
    UntilSpaceAt(s[8..11], |x|);
    assert s[..8][..|f|] == f && s[8..11][..|x|] == x;
  }

  lemma ShortFieldHalves(name: Name)
    ensures var b, file := ShortField(name)[..8], name[..FileLen(name)];
            forall i :: 0 <= i < 8 ==> b[i] == if i < |file| then Upper(file[i]) else SPACE
    ensures var b, ext := ShortField(name)[8..], name[ExtBase(name)..];
            forall i :: 0 <= i < 3 ==> b[i] == if i < |ext| then Upper(ext[i]) else SPACE
  {
    var b, ext := ShortField(name)[8..], name[ExtBase(name)..];
    forall i | 0 <= i < 3
      ensures b[i] == if i < |ext| then Upper(ext[i]) else SPACE
    {
      var k := 8 + i;
      assert b[i] == ShortField(name)[k];
      assert ShortField(name)[k] == if k < ExtLen(name) + 8 then Upper(name[ExtBase(name) + k - 8]) else SPACE;
      assert i < |ext| ==> ext[i] == name[ExtBase(name) + k - 8];
    }
  }

  /** The two halves of the 8.3 field stand for the name exactly when the name is a proper 8.3 name. */
  lemma ShortTextIff(name: Name, t: FileType, ino: u32, cMs: u8)
    requires |name| <= 11
    ensures ShortText(ShortSlot(name, t, ino, cMs)) == UpperAll(name) <==> Proper83(name)
  {
    hide ShortSlot;
    var slot := ShortSlot(name, t, ino, cMs);
    var file, ext := name[..FileLen(name)], name[ExtBase(name)..];
    assert slot[..8] == slot[..11][..8] && slot[8..11] == slot[..11][8..];
    ShortFieldHalves(name);
    UntilSpaceOfField(file, slot[..8]);
    UntilSpaceOfField(ext, slot[8..11]);
    hide ShortField, UntilSpace;
    JoinedAtDot(name, UntilSpace(slot[..8]), UntilSpace(slot[8..11]));
  }

  /** `f` and `x`, no longer than the two halves, join to the upper-cased name exactly when they are its halves. */
  lemma JoinedAtDot(name: Name, f: seq<u8>, x: seq<u8>)
    requires |f| <= FileLen(name) && |x| <= ExtLen(name)
    ensures (if x == [] then f else f + [DOT] + x) == UpperAll(name) <==>
            && f == UpperAll(name[..FileLen(name)]) && x == UpperAll(name[ExtBase(name)..])
            && (LastDot(name, |name|) >= 0 ==> x != [])
  {
    hide LastDot, UpperAll;
    if LastDot(name, |name|) >= 0 {
      var d := LastDot(name, |name|);
      assert FileLen(name) == d && ExtBase(name) == d + 1 && ExtLen(name) == |name| - d - 1;
      hide FileLen, ExtBase, ExtLen;
      JoinedWithDot(name, d, f, x);
    } else {
      assert FileLen(name) == ExtBase(name) == |name| && ExtLen(name) == 0;
      hide FileLen, ExtBase, ExtLen;
      JoinedDotless(name, f, x);
    }
  }

  lemma JoinedWithDot(name: Name, d: nat, f: seq<u8>, x: seq<u8>)
    requires d < |name| && name[d] == DOT && |f| <= d && |x| <= |name| - d - 1
    ensures (if x == [] then f else f + [DOT] + x) == UpperAll(name) <==>
            f == UpperAll(name[..d]) && x == UpperAll(name[d + 1..]) && x != []
  {
    hide UpperAll;
    UpperSplit(name, d);
    JoinedParts(UpperAll(name[..d]), UpperAll(name[d + 1..]), f, x);
  }

  lemma JoinedDotless(name: Name, f: seq<u8>, x: seq<u8>)
    requires |f| <= |name| && x == []
    ensures f == UpperAll(name) <==> f == UpperAll(name[..|name|]) && x == UpperAll(name[|name|..])
  {
    assert name[..|name|] == name;
    assert name[|name|..] == [];
  }

  lemma UpperSplit(name: Name, d: nat)
    requires d < |name| && name[d] == DOT
    ensures UpperAll(name) == UpperAll(name[..d]) + [DOT] + UpperAll(name[d + 1..])
  {
    var l, r := UpperAll(name), UpperAll(name[..d]) + [DOT] + UpperAll(name[d + 1..]);
    forall i | 0 <= i < |l|
      ensures l[i] == r[i]
    {
    }
  }

  lemma JoinedParts(file: seq<u8>, ext: seq<u8>, f: seq<u8>, x: seq<u8>)
    requires |f| <= |file| && |x| <= |ext|
    ensures (if x == [] then f else f + [DOT] + x) == file + [DOT] + ext <==> f == file && x == ext && x != []
  {
    var n := file + [DOT] + ext;
    if x != [] && f + [DOT] + x == n {
      assert |f| == |file| && |x| == |ext|;
      assert f == n[..|f|] && x == n[|f| + 1..];
      assert file == n[..|f|] && ext == n[|f| + 1..];
    }
  }

  // ---- the first cluster -----------------------------------------------------------------------------------

  /** The first cluster as `fat32_lookup` reads it: of the low half only the low byte. */
  function LookupCluster(s: Slot): nat {
    (s[20] as int + s[21] as int * 0x100) * 0x1_0000 + s[26] as int
  }

  /**
   * The two halves of the first cluster are stored modulo 256, so the cluster that is read back is the file's own
   * exactly when neither half needs its high byte.
   */
  lemma ClusterRoundTripIff(name: Name, t: FileType, ino: u32, cMs: u8)
    ensures var s := ShortSlot(name, t, ino, cMs);
            && FirstCluster(s) == LookupCluster(s)
            && FirstCluster(s) == ino % 0x100 + ino / 0x1_0000 % 0x100 * 0x1_0000
            && (FirstCluster(s) == ino <==> ino % 0x1_0000 < 0x100 && ino / 0x1_0000 < 0x100)
  {
    hide ShortSlot;
  }

  /** `fat32_readdir` reads all four bytes of the number, `fat32_lookup` leaves out the second one. */
  lemma FourBytes(s: Slot)
    ensures FirstCluster(s) == s[26] as int + s[27] as int * 0x100 + s[20] as int * 0x1_0000 + s[21] as int * 0x100_0000
    ensures LookupCluster(s) == FirstCluster(s) - s[27] as int * 0x100
  {
  }

  /** Cluster 256 is the first one whose files are filed under another cluster. */
  lemma Cluster256Lost(name: Name, t: FileType, cMs: u8)
    ensures FirstCluster(ShortSlot(name, t, 256, cMs)) == 0
  {
    hide ShortSlot;
  }

  // ---- the routines ----------------------------------------------------------------------------------------

  /** The search for the extension at the head of `fill_direntry`. */
  method FindExtension(name: Name) returns (fileLen: nat, extBase: nat, extLen: nat)
    ensures fileLen == FileLen(name) && extBase == ExtBase(name) && extLen == ExtLen(name)
  {
    var d: int := |name| - 1;
    while d >= 0 && name[d] != DOT
      invariant -1 <= d < |name|
      invariant LastDot(name, |name|) == LastDot(name, d + 1)
    {
      d := d - 1;
    }
    if d < 0 {
      fileLen, extBase, extLen := |name|, |name|, 0;
    } else {
      fileLen, extBase, extLen := d, d + 1, |name| - d - 1;
    }
  }

  /**
   * `fill_direntry`: slot `index` of the `total` slots of a file, written over the caller's local buffer `dr`,
   * which the code passes by pointer and the model passes in and out.
   */
  method FillDirentry(name: Name, t: FileType, dr: Slot, index: nat, total: nat, ino: u32) returns (r: Slot)
    requires |name| <= LONGEST_NAME && total == SlotCount(name) && index < total
    ensures r == if index == 0 then ShortSlot(name, t, ino, dr[13]) else LongSlot(name, index, total)
  {
    var fileLen, extBase, extLen := FindExtension(name);
    if index == 0 {
      r := FillField(name, dr, total, fileLen, extBase, extLen);
      r := FillAttributes(t, r, ino);
      assert r == r[..11] + r[11..];
    } else {
      var buf := new u8[FILENAME_MX_LEN](_ => 0);
      forall i | 0 <= i < fileLen {
        buf[i] := name[i];
      }
      buf[fileLen] := DOT;
      forall i | 0 <= i < extLen {
        buf[fileLen + 1 + i] := name[extBase + i];
      }
      assert buf[..] == LongBuf(name);
      r := FillLong(name, dr, buf, index, total);
    }
  }

  /** The name field of the 8.3 slot. */
  method FillField(name: Name, dr: Slot, total: nat, fileLen: nat, extBase: nat, extLen: nat) returns (r: Slot)
    requires total == SlotCount(name)
    requires fileLen == FileLen(name) && extBase == ExtBase(name) && extLen == ExtLen(name)
    ensures r[..11] == NameField(name) && r[11..] == dr[11..]
  {
    r := dr;
    if total == 1 {
      for i := 0 to 8
        invariant forall k :: 0 <= k < i ==> r[k] == ShortField(name)[k]
        invariant r[11..] == dr[11..]
      {
        r := r[i := if i < fileLen then Upper(name[i]) else SPACE];
      }
    } else {
      for i := 0 to 6
        invariant forall k :: 0 <= k < i ==> r[k] == AliasField(name)[k]
        invariant r[11..] == dr[11..]
      {
        r := r[i := Upper(name[i])];
      }
      r := r[6 := 0x7e][7 := 0x31];
    }
    for i := 8 to 11
      invariant forall k :: 0 <= k < i ==> r[k] == NameField(name)[k]
      invariant r[11..] == dr[11..]
    {
      r := r[i := if i < extLen + 8 then Upper(name[extBase + i - 8]) else SPACE];
    }
  }

  /** Attribute, first cluster, size and the fixed time stamps; byte 13 is not written. */
  method FillAttributes(t: FileType, dr: Slot, ino: u32) returns (r: Slot)
    ensures r[..11] == dr[..11]
    ensures r[11..] == [TypeAttr(t), 0x18, dr[13], 0xc8, 0x95, 0x95, 0x4d, 0x95, 0x4d, ino / 0x1_0000 % 0x100, 0,
                        0xc8, 0x95, 0x95, 0x4d, ino % 0x100, 0, 0, 0, 0, 0]
  {
    r := dr[11 := TypeAttr(t)];
    r := r[20 := ino / 0x1_0000 % 0x100][21 := 0];
    r := r[26 := ino % 0x100][27 := 0];
    r := r[28 := 0][29 := 0][30 := 0][31 := 0];
    r := r[14 := 0xc8][15 := 0x95];
    r := r[16 := 0x95][17 := 0x4d];
    r := r[18 := 0x95][19 := 0x4d];
    r := r[22 := 0xc8][23 := 0x95];
    r := r[24 := 0x95][25 := 0x4d];
    r := r[12 := 0x18];
    ghost var tail := [TypeAttr(t), 0x18, dr[13], 0xc8, 0x95, 0x95, 0x4d, 0x95, 0x4d, ino / 0x1_0000 % 0x100, 0,
                       0xc8, 0x95, 0x95, 0x4d, ino % 0x100, 0, 0, 0, 0, 0];
    forall i | 0 <= i < 21
      ensures r[11..][i] == tail[i]
    {
    }
  }

  /** The bytes of a long slot. */
  method FillLong(name: Name, dr: Slot, buf: array<u8>, index: nat, total: nat) returns (r: Slot)
    requires |name| <= LONGEST_NAME
    requires total == SlotCount(name) && 0 < index < total && buf[..] == LongBuf(name)
    ensures r == LongSlot(name, index, total)
  {
    var base, end := (index - 1) * 13, |name|;
    var b := buf[..];
    r := FillLongHead(dr, b, base, end, if index == total - 1 then index + 0x40 else index);
    r := FillLongTail(r, b, base, end);
    assert r == r[..14] + r[14..];
    hide LongHead, LongTail;
  }

  /** Bytes 0 to 13: the ordinal, the first five characters, the long-name mark. */
  method FillLongHead(dr: Slot, b: seq<u8>, base: nat, end: nat, ordinal: u8) returns (r: Slot)
    requires base <= end < |b|
    ensures r[..14] == LongHead(b, base, end, ordinal)
  {
    r := dr[0x00 := ordinal];
    r := r[0x01 := b[base]][0x02 := 0];
    r := r[0x03 := CharAt(b, base, end, 1)][0x04 := HighAt(base, end, 1)];
    r := r[0x05 := CharAt(b, base, end, 2)][0x06 := HighAt(base, end, 2)];
    r := r[0x07 := CharAt(b, base, end, 3)][0x08 := HighAt(base, end, 3)];
    r := r[0x09 := CharAt(b, base, end, 4)][0x0a := HighAt(base, end, 4)];
    r := r[0x0b := LONGNAME][0x0c := 0][0x0d := 0x2a];
  }

  /** Bytes 14 to 31: the other eight characters around the two zero bytes. */
  method FillLongTail(dr: Slot, b: seq<u8>, base: nat, end: nat) returns (r: Slot)
    requires base <= end < |b|
    ensures r[..14] == dr[..14]
    ensures r[14..] == LongTail(b, base, end)
  {
    r := dr[0x0e := CharAt(b, base, end, 5)][0x0f := HighAt(base, end, 5)];
    r := r[0x10 := CharAt(b, base, end, 6)][0x11 := HighAt(base, end, 6)];
    r := r[0x12 := CharAt(b, base, end, 7)][0x13 := HighAt(base, end, 7)];
    r := r[0x14 := CharAt(b, base, end, 8)][0x15 := HighAt(base, end, 8)];
    r := r[0x16 := CharAt(b, base, end, 9)][0x17 := HighAt(base, end, 9)];
    r := r[0x18 := CharAt(b, base, end, 10)][0x19 := HighAt(base, end, 10)];
    r := r[0x1a := 0][0x1b := 0];
    r := r[0x1c := CharAt(b, base, end, 11)][0x1d := HighAt(base, end, 11)];
    r := r[0x1e := CharAt(b, base, end, 12)][0x1f := HighAt(base, end, 12)];
  }

  /** `generic_check_filename`: 0 (here `true`) exactly for names equal up to the case of ASCII letters. */
  method CheckFilename(a: Name, b: Name) returns (same: bool)
    ensures same <==> SameName(a, b)
    ensures same <==> UpperAll(a) == UpperAll(b)
  {
    UpperAllIff(a, b);
    if |a| != |b| {
      assert |UpperAll(a)| != |UpperAll(b)|;
      return false;
    }
    var i := 0;
    while true
      invariant 0 <= i <= |a|
      invariant forall k :: 0 <= k < i ==> Upper(a[k]) == Upper(b[k])
      decreases |a| - i
    {
      if i >= |a| {
        break;
      }
      if Upper(a[i]) != Upper(b[i]) {
        assert UpperAll(a)[i] != UpperAll(b)[i];
        return false;
      }
      i := i + 1;
    }
    return true;
  }

  /** One of the two loops of the 8.3 branch: append the part of the field before its first space. */
  method CopyUntilSpace(field: seq<u8>, buf: seq<u8>, at: nat) returns (r: seq<u8>, n: nat)
    requires at + |field| <= |buf|
    ensures n == |UntilSpace(field)| && |r| == |buf| && r[..at + n] == buf[..at] + UntilSpace(field)
  {
    n, r := 0, buf;
    while n < |field| && field[n] != SPACE
      invariant 0 <= n <= |field| && forall i :: 0 <= i < n ==> field[i] != SPACE
      invariant |r| == |buf| && r[..at + n] == buf[..at] + field[..n]
    {
      r := r[at + n := field[n]];
      assert r[..at + n + 1] == r[..at + n] + [field[n]];
      n := n + 1;
    }
    UntilSpaceAt(field, n);
  }

  /** The 8.3 branch of the parsing loops: the name that the slot stands for, in the parser's name buffer. */
  method ParseShort(slot: Slot, buf: seq<u8>) returns (r: seq<u8>, len: nat)
    requires |buf| == FILENAME_MX_LEN
    ensures |r| == |buf| && len <= 12 && r[..len] == ShortText(slot)
  {
    var k: nat, n: nat;
    r, k := CopyUntilSpace(slot[..8], buf, 0);
    ghost var f := UntilSpace(slot[..8]);
    assert r[..k] == f;
    r := r[k := DOT];
    assert r[..k + 1] == f + [DOT];
    r, n := CopyUntilSpace(slot[8..11], r, k + 1);
    if n == 0 {
      assert r[..k] == r[..k + 1][..k] == f;
      r := r[k := 0];
      len := k;
    } else {
      len := k + 1 + n;
    }
  }
}
