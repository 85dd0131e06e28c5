/**
 * The libleo scrambler (tools/encrypt_libleo.py): the map-file lookup of a
 * symbol's address, the one-byte key, the virtual-to-ROM offset and the
 * in-place rewrite of the __LeoBootGame2 and __LeoBootGame3 code regions. The
 * ROM file is an array of bytes; file opening, seeking and the hex-string
 * conversions are left out.
 */
module Libleo {
  import opened Wrappers

  // ---------------------------------------------------------------------------
  // The map-file lookup (get_address_from_map)
  // ---------------------------------------------------------------------------

  /** The characters Python's str.split() with no argument splits on: those str.isspace() accepts. */
  predicate IsSpace(c: char) {
    '\t' <= c <= '\r' || '\U{1C}' <= c <= ' ' || c == '\U{85}' || c == '\U{A0}' || c == '\U{1680}' ||
    '\U{2000}' <= c <= '\U{200A}' || c == '\U{2028}' || c == '\U{2029}' || c == '\U{202F}' ||
    c == '\U{205F}' || c == '\U{3000}'
  }

  /** `name` occurs in `line` starting at index i. */
  predicate OccursAt(line: string, name: string, i: int) {
    0 <= i <= |line| - |name| && line[i..i + |name|] == name
  }

  /** Python's `name in line`: name occurs in line as a substring (the empty name occurs everywhere). */
  predicate Contains(line: string, name: string) {
    exists i :: 0 <= i <= |line| - |name| && OccursAt(line, name, i)
  }

  /** The line without its leading whitespace. */
  function SkipSpace(s: string): (t: string)
    ensures |t| <= |s| && t == s[|s| - |t|..]
    ensures forall k :: 0 <= k < |s| - |t| ==> IsSpace(s[k])
    ensures t == [] || !IsSpace(t[0])
  {
    if s != [] && IsSpace(s[0]) then SkipSpace(s[1..]) else s
  }

  /** The run of non-whitespace characters at the start of s. */
  function TakeWord(s: string): (w: string)
    ensures |w| <= |s| && w == s[..|w|]
    ensures forall k :: 0 <= k < |w| ==> !IsSpace(w[k])
    ensures |w| == |s| || IsSpace(s[|w|])
  {
    if s != [] && !IsSpace(s[0]) then [s[0]] + TakeWord(s[1..]) else []
  }

  /** `line.split()[0]`, or None where split() returns no fields and the index fails. */
  function FirstToken(line: string): Option<string> {
    var rest := SkipSpace(line);
    if rest == [] then None else Some(TakeWord(rest))
  }

  /**
   * FirstToken is the first whitespace-separated field: None exactly when the
   * line is all whitespace, otherwise a non-empty run of non-whitespace that
   * follows only whitespace and ends at whitespace or at the end of the line.
   */
  lemma FirstTokenIsFirstField(line: string)
    ensures FirstToken(line).None? <==> forall k :: 0 <= k < |line| ==> IsSpace(line[k])
    ensures FirstToken(line).Some? ==> var t := FirstToken(line).value;
      t != [] && (forall k :: 0 <= k < |t| ==> !IsSpace(t[k])) &&
      exists i :: OccursAt(line, t, i) &&
        (forall k :: 0 <= k < i ==> IsSpace(line[k])) && (i + |t| == |line| || IsSpace(line[i + |t|]))
  {
    var rest := SkipSpace(line);
    var i := |line| - |rest|;
    if rest != [] {
      var t := TakeWord(rest);
      assert OccursAt(line, t, i) by {
        assert line[i..] == rest;
        assert rest[..|t|] == t;
      }
      if i + |t| < |line| {
        assert line[i + |t|] == rest[|t|];
      }
    } else {
      assert forall k :: 0 <= k < |line| ==> IsSpace(line[k]) by {
        assert i == |line|;
      }
    }
  }

  /** What the lookup returns for the line it stops at. */
  datatype Lookup = Token(token: string) | NotFound | NoToken

  function TokenOf(line: string): Lookup {
    match FirstToken(line)
    case None => NoToken
    case Some(t) => Token(t)
  }

  /**
   * get_address_from_map: the first field of the first line that contains the
   * name; NotFound stands for the -1 returned when no line does, and NoToken for
   * the IndexError of a matching line with no fields.
   */
  method GetAddressFromMap(lines: seq<string>, name: string) returns (r: Lookup)
    ensures r.NotFound? <==> forall i :: 0 <= i < |lines| ==> !Contains(lines[i], name)
    ensures !r.NotFound? ==> exists i :: 0 <= i < |lines| && Contains(lines[i], name) &&
                                         (forall j :: 0 <= j < i ==> !Contains(lines[j], name)) && r == TokenOf(lines[i])
  {
    var n := 0;
    while n < |lines|
      invariant 0 <= n <= |lines|
      invariant forall j :: 0 <= j < n ==> !Contains(lines[j], name)
    {
      var line := lines[n];
      if Contains(line, name) {
        var fields := FirstToken(line);
        if fields.None? {
          return NoToken;
        }
        return Token(fields.value);
      }
      n := n + 1;
    }
    return NotFound;
  }

  /** A name with a non-whitespace character, such as "__LeoBootGame2", never meets a line without fields. */
  lemma VisibleNameHasToken(line: string, name: string, m: int)
    requires Contains(line, name) && 0 <= m < |name| && !IsSpace(name[m])
    ensures TokenOf(line).Token?
  {
    var i :| 0 <= i <= |line| - |name| && OccursAt(line, name, i);
    assert line[i + m] == line[i..i + |name|][m] == name[m];
    FirstTokenIsFirstField(line);
  }

  // ---------------------------------------------------------------------------
  // The key and the ROM offset
  // ---------------------------------------------------------------------------

  /**
   * `(a & (0xFF << 8n)) >> 8n` on a Python integer: byte n of a, that is its
   * n-th base-256 digit (floor division, so negative integers behave as in
   * Python's two's-complement bit operations).
   */
  function ByteOf(a: int, n: nat): (b: int)
    ensures 0 <= b < 0x100
    decreases n
  {
    if n == 0 then a % 0x100 else ByteOf(a / 0x100, n - 1)
  }

  /** Line 61: the four bytes of the address summed, with `& 0xFF` applied to the whole sum. */
  function Key(addr: int): (k: int)
    ensures 0 <= k < 0x100
  {
    (ByteOf(addr, 3) + ByteOf(addr, 2) + ByteOf(addr, 1) + ByteOf(addr, 0)) % 0x100
  }

  /** Division and remainder by 256 of k * 256 + x. */
  lemma ShiftByte(k: int, x: int)
    ensures (k * 0x100 + x) / 0x100 == k + x / 0x100 && (k * 0x100 + x) % 0x100 == x % 0x100
  {
  }

  /** The key of an address written as four bytes is their sum mod 256. */
  lemma KeyOfBytes(b3: int, b2: int, b1: int, b0: int)
    requires 0 <= b3 < 0x100 && 0 <= b2 < 0x100 && 0 <= b1 < 0x100 && 0 <= b0 < 0x100
    ensures Key(b3 * 0x100_0000 + b2 * 0x1_0000 + b1 * 0x100 + b0) == (b3 + b2 + b1 + b0) % 0x100
  {
    var a2 := Join(b3, b2);
    var a1 := Join(a2, b1);
    var a := Join(a1, b0);
    Horner(b3, b2, b1, b0);
    JoinBytes(a1, b0, 0);
    JoinBytes(a1, b0, 1);
    JoinBytes(a1, b0, 2);
    JoinBytes(a2, b1, 0);
    JoinBytes(a2, b1, 1);
    JoinBytes(b3, b2, 0);
    assert ByteOf(a, 0) == b0 && ByteOf(a, 1) == b1 && ByteOf(a, 2) == b2 && ByteOf(a, 3) == b3;
  }

  /** The number with base-256 digits hi (high part) and lo (low byte). */
  function Join(hi: int, lo: int): int {
    hi * 0x100 + lo
  }

  /** The four-byte number in nested form. */
  lemma Horner(b3: int, b2: int, b1: int, b0: int)
    ensures b3 * 0x100_0000 + b2 * 0x1_0000 + b1 * 0x100 + b0 == Join(Join(Join(b3, b2), b1), b0)
  {
  }

  /** The bytes of Join(hi, lo): lo first, then the bytes of hi. */
  lemma JoinBytes(hi: int, lo: int, n: nat)
    requires 0 <= lo < 0x100
    ensures ByteOf(Join(hi, lo), 0) == lo && ByteOf(Join(hi, lo), n + 1) == ByteOf(hi, n)
  {
    ShiftByte(hi, lo);
  }

  /** Only the low 32 bits of the address matter. */
  lemma KeyLow32(addr: int)
    ensures Key(addr) == Key(addr % 0x1_0000_0000)
  {
    var q, low := addr / 0x1_0000_0000, addr % 0x1_0000_0000;
    assert addr == q * 0x100_0000 * 0x100 + low;
    ShiftByte(q * 0x100_0000, low);
    assert addr / 0x100 == q * 0x1_0000 * 0x100 + low / 0x100;
    ShiftByte(q * 0x1_0000, low / 0x100);
    assert addr / 0x100 / 0x100 == q * 0x100 * 0x100 + low / 0x100 / 0x100;
    ShiftByte(q * 0x100, low / 0x100 / 0x100);
    ShiftByte(q, low / 0x100 / 0x100 / 0x100);
  }

  /** The mask applies to the whole sum: at 0xFFFFFFFF the sum 0x3FC becomes 0xFC. */
  lemma KeyMasksWholeSum()
    ensures Key(0xFFFF_FFFF) == 0xFC
  {
    KeyOfBytes(0xFF, 0xFF, 0xFF, 0xFF);
  }

  /** Where the region's virtual addresses start on the ROM. */
  const VaddrBase := 0x7FFF_F400

  /** Lines 55-56: the ROM offset of a virtual address. */
  function RomOffset(vaddr: int): (off: int)
    ensures off + VaddrBase == vaddr
  {
    vaddr - VaddrBase
  }

  // ---------------------------------------------------------------------------
  // The region rewrite (encrypt_leobootgame2 / encrypt_leobootgame3)
  // ---------------------------------------------------------------------------

  /** A byte of the ROM file. */
  newtype Byte = b: int | 0 <= b < 0x100

  /** `(b + key) & 0xFF` */
  function AddKey(b: Byte, key: int): Byte {
    ((b as int + key) % 0x100) as Byte
  }

  /** `(b - key) & 0xFF` */
  function SubKey(b: Byte, key: int): Byte {
    ((b as int - key) % 0x100) as Byte
  }

  /** Adding and subtracting the same key undo each other. */
  lemma AddSubInverse(b: Byte, key: int)
    ensures SubKey(AddKey(b, key), key) == b && AddKey(SubKey(b, key), key) == b
  {
    var v := b as int;
    var q := (v + key) / 0x100;
    ShiftByte(-q, v);
    var q' := (v - key) / 0x100;
    ShiftByte(-q', v);
  }

  /**
   * The byte at offset rel from the region start once its first `words` words
   * have been rewritten: byte 2 of a rewritten word gains the key, byte 3 loses it.
   */
  function ScrambledByte(b: Byte, rel: int, words: int, key: int): Byte {
    if 0 <= rel && rel / 4 < words then
      if rel % 4 == 2 then AddKey(b, key) else if rel % 4 == 3 then SubKey(b, key) else b
    else
      b
  }

  /** The byte with the opposite adjustment: byte 2 loses the key, byte 3 gains it. */
  function UnscrambledByte(b: Byte, rel: int, words: int, key: int): Byte {
    if 0 <= rel && rel / 4 < words then
      if rel % 4 == 2 then SubKey(b, key) else if rel % 4 == 3 then AddKey(b, key) else b
    else
      b
  }

  /** The contents after the first `words` 4-byte words from `start` were rewritten. */
  function Scrambled(s: seq<Byte>, start: int, words: int, key: int): (t: seq<Byte>)
    ensures |t| == |s|
  {
    seq(|s|, k requires 0 <= k < |s| => ScrambledByte(s[k], k - start, words, key))
  }

  /** The same words with the opposite adjustment. */
  function Unscrambled(s: seq<Byte>, start: int, words: int, key: int): (t: seq<Byte>)
    ensures |t| == |s|
  {
    seq(|s|, k requires 0 <= k < |s| => UnscrambledByte(s[k], k - start, words, key))
  }

  /** The rewrite is a bijection: the opposite adjustment restores the original bytes, and vice versa. */
  lemma ScrambleInverse(s: seq<Byte>, start: int, words: int, key: int)
    ensures Unscrambled(Scrambled(s, start, words, key), start, words, key) == s
    ensures Scrambled(Unscrambled(s, start, words, key), start, words, key) == s
  {
    forall k | 0 <= k < |s|
      ensures UnscrambledByte(ScrambledByte(s[k], k - start, words, key), k - start, words, key) == s[k]
      ensures ScrambledByte(UnscrambledByte(s[k], k - start, words, key), k - start, words, key) == s[k]
    {
      AddSubInverse(s[k], key);
    }
  }

  /**
   * What the rewrite leaves alone: every byte outside the words
   * [start, start + 4 * words), and bytes 0 and 1 of every word.
   */
  lemma ScrambleFrame(s: seq<Byte>, start: int, words: int, key: int, k: int)
    requires 0 <= k < |s|
    ensures !(start <= k < start + 4 * words) ==> Scrambled(s, start, words, key)[k] == s[k]
    ensures (k - start) % 4 < 2 ==> Scrambled(s, start, words, key)[k] == s[k]
  {
  }

  /** Offset j of word n lies in word n at position j. */
  lemma WordSplit(n: int, j: int)
    requires 0 <= j < 4
    ensures (4 * n + j) / 4 == n && (4 * n + j) % 4 == j
  {
  }

  /** Rewriting one more word changes exactly bytes 2 and 3 of that word, which were untouched before. */
  lemma ScrambleStep(s: seq<Byte>, start: int, n: int, key: int)
    requires 0 <= start && 0 <= n && start + 4 * n + 4 <= |s|
    ensures var p, t := start + 4 * n, Scrambled(s, start, n, key);
      t[p] == s[p] && t[p + 1] == s[p + 1] && t[p + 2] == s[p + 2] && t[p + 3] == s[p + 3] &&
      Scrambled(s, start, n + 1, key) == t[..p] + [t[p], t[p + 1], AddKey(t[p + 2], key), SubKey(t[p + 3], key)] + t[p + 4..]
  {
    var p, t := start + 4 * n, Scrambled(s, start, n, key);
    WordSplit(n, 0);
    WordSplit(n, 1);
    WordSplit(n, 2);
    WordSplit(n, 3);
    var u := t[..p] + [t[p], t[p + 1], AddKey(t[p + 2], key), SubKey(t[p + 3], key)] + t[p + 4..];
    forall k | 0 <= k < |s|
      ensures Scrambled(s, start, n + 1, key)[k] == u[k]
    {
      var rel := k - start;
      if 0 <= rel && rel / 4 == n {
        WordSplit(n, rel % 4);
        assert k == p + rel % 4;
      }
    }
  }

  /** How the rewrite of one region ends. */
  datatype Outcome =
    | Written              // every word rewritten; the source returns 0
    | NegativeSeek         // seek to a negative ROM address raises before anything is read
    | ShortRead(at: int)   // the read at `at` returns fewer than 4 bytes and indexing ba[2] or ba[3], or the seek back, raises

  /** The number of words `range(0, func_size, 4)` visits. */
  function WordCount(funcSize: int): (n: nat)
    ensures (4 * n >= funcSize && 4 * n < funcSize + 4) || (funcSize <= 0 && n == 0)
  {
    if funcSize <= 0 then 0 else (funcSize + 3) / 4
  }

  /** The number of words rewritten before the region runs past the end of the ROM. */
  function WordsWritten(romLength: int, start: int, words: nat): (n: nat)
    requires 0 <= start
    ensures n <= words
    ensures start + 4 * n <= romLength || n == 0
    ensures n < words ==> start + 4 * n + 4 > romLength
  {
    if start + 4 * words <= romLength then words
    else if start >= romLength then 0
    else (romLength - start) / 4
  }

  /**
   * The loop shared by encrypt_leobootgame2 and encrypt_leobootgame3: each
   * 4-byte word from `romAddr` is read, bytes 2 and 3 adjusted by the key, and
   * the word written back in place.
   */
  method EncryptFunction(rom: array<Byte>, romAddr: int, funcSize: int, key: int) returns (r: Outcome)
    modifies rom
    ensures r == NegativeSeek <==> romAddr < 0
    ensures romAddr < 0 ==> rom[..] == old(rom[..])
    ensures romAddr >= 0 ==> var n := WordsWritten(rom.Length, romAddr, WordCount(funcSize));
      rom[..] == Scrambled(old(rom[..]), romAddr, n, key) &&
      (r == Written <==> n == WordCount(funcSize)) &&
      (r.ShortRead? ==> r.at == romAddr + 4 * n)
  {
    if romAddr < 0 {
      return NegativeSeek;
    }
    ghost var s := rom[..];
    ghost var words := WordCount(funcSize);
    var pos := romAddr;
    var i := 0;
    ghost var n := 0;
    while i < funcSize
      invariant 0 <= n <= words && i == 4 * n && pos == romAddr + i
      invariant romAddr + 4 * n <= rom.Length || n == 0
      invariant rom[..] == Scrambled(s, romAddr, n, key)
    {
      if pos + 4 > rom.Length {
        return ShortRead(pos);
      }
      ScrambleStep(s, romAddr, n, key);
      RewriteWord(rom, pos, key);
      pos := pos + 4;
      i := i + 4;
      n := n + 1;
    }
    return Written;
  }

  /** One iteration: read the word at `pos`, change bytes 2 and 3, write it back. */
  method RewriteWord(rom: array<Byte>, pos: int, key: int)
    requires 0 <= pos && pos + 4 <= rom.Length
    modifies rom
    ensures var t := old(rom[..]);
      rom[..] == t[..pos] + [t[pos], t[pos + 1], AddKey(t[pos + 2], key), SubKey(t[pos + 3], key)] + t[pos + 4..]
  {
    ghost var t := rom[..];
    var ba := rom[pos..pos + 4];
    ba := ba[2 := AddKey(ba[2], key)];
    ba := ba[3 := SubKey(ba[3], key)];
    assert ba == [t[pos], t[pos + 1], AddKey(t[pos + 2], key), SubKey(t[pos + 3], key)];
    WriteWord(rom, pos, ba);
  }

  /** `rom_file.write(ba)` at `pos`: the four bytes replace the word there. */
  method WriteWord(rom: array<Byte>, pos: int, ba: seq<Byte>)
    requires |ba| == 4 && 0 <= pos && pos + 4 <= rom.Length
    modifies rom
    ensures rom[..] == old(rom[..])[..pos] + ba + old(rom[..])[pos + 4..]
  {
    rom[pos] := ba[0];
    rom[pos + 1] := ba[1];
    rom[pos + 2] := ba[2];
    rom[pos + 3] := ba[3];
  }

  /** `func_size` of encrypt_leobootgame2: 804 bytes, 201 words. */
  const BootGame2Size := 804

  /** `func_size` of encrypt_leobootgame3: 0x60 bytes, 24 words. */
  const BootGame3Size := 0x60

  /** encrypt_leobootgame2: the 804-byte region of __LeoBootGame2. */
  method EncryptLeoBootGame2(rom: array<Byte>, romAddr: int, key: int) returns (r: Outcome)
    modifies rom
    ensures r == NegativeSeek <==> romAddr < 0
    ensures r == Written <==> 0 <= romAddr && romAddr + BootGame2Size <= rom.Length
    ensures r == Written ==> rom[..] == Scrambled(old(rom[..]), romAddr, 201, key)
    ensures r != Written ==> exists n :: 0 <= n < 201 && rom[..] == Scrambled(old(rom[..]), romAddr, n, key)
  {
    r := EncryptFunction(rom, romAddr, BootGame2Size, key);
    if romAddr < 0 {
      assert Scrambled(old(rom[..]), romAddr, 0, key) == old(rom[..]);
    }
  }

  /** encrypt_leobootgame3: the 0x60-byte region of __LeoBootGame3. */
  method EncryptLeoBootGame3(rom: array<Byte>, romAddr: int, key: int) returns (r: Outcome)
    modifies rom
    ensures r == NegativeSeek <==> romAddr < 0
    ensures r == Written <==> 0 <= romAddr && romAddr + BootGame3Size <= rom.Length
    ensures r == Written ==> rom[..] == Scrambled(old(rom[..]), romAddr, 24, key)
    ensures r != Written ==> exists n :: 0 <= n < 24 && rom[..] == Scrambled(old(rom[..]), romAddr, n, key)
  {
    r := EncryptFunction(rom, romAddr, BootGame3Size, key);
    if romAddr < 0 {
      assert Scrambled(old(rom[..]), romAddr, 0, key) == old(rom[..]);
    }
  }
}
