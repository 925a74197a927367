/** ELF notes: the boot block that kexec-elf-boot.c writes and the two-pass walk of build_mem_notes in kexec-elf.c. */
module BootNotes {
  import opened Bits
  import opened Buffers
  import opened IpChecksum
  import opened Kexec

  datatype Note = Note(kind: nat, name: seq<byte>, desc: seq<byte>)

  function Up4(n: nat): (r: nat)
    ensures r % 4 == 0 && n <= r < n + 4
  {
    (n + 3) / 4 * 4
  }

  /** The walks round in 32-bit words, where the last three sizes wrap to 0. */
  function Padded(n: nat): nat { Word32(n + 3) / 4 * 4 }

  lemma PaddedIsUp4(n: nat)
    requires n + 3 < 0x1_0000_0000
    ensures Padded(n) == Up4(n)
  {}

  /** The fields of the note header at the front of s. */
  function Namesz(s: seq<byte>): nat requires 12 <= |s| { FromLittle(s[0..4]) }
  function Descsz(s: seq<byte>): nat requires 12 <= |s| { FromLittle(s[4..8]) }
  function Kind(s: seq<byte>): nat requires 12 <= |s| { FromLittle(s[8..12]) }

  function NoteSize(s: seq<byte>): nat
    requires 12 <= |s|
  {
    12 + Padded(Namesz(s)) + Padded(Descsz(s))
  }

  /** The name and the descriptor of the front note lie inside s; their padding need not. */
  predicate Complete(s: seq<byte>) {
    && 12 <= |s| && 12 + Namesz(s) <= |s|
    && (Descsz(s) > 0 ==> 12 + Padded(Namesz(s)) + Descsz(s) <= |s|)
  }

  /** What is left behind the front note: nothing, if its padding reaches the end. */
  function Behind(s: seq<byte>): seq<byte>
    requires 12 <= |s|
  {
    if NoteSize(s) < |s| then s[NoteSize(s)..] else []
  }

  /** Every note of the segment lies inside it: the walk relies on that without checking. */
  predicate InBounds(s: seq<byte>)
    decreases |s|
  {
    s == [] || (Complete(s) && InBounds(Behind(s)))
  }

  function First(s: seq<byte>): Note
    requires Complete(s)
  {
    var desc := 12 + Padded(Namesz(s));
    Note(Kind(s), s[12..12 + Namesz(s)], if Descsz(s) == 0 then [] else s[desc..desc + Descsz(s)])
  }

  function Notes(s: seq<byte>): seq<Note>
    requires InBounds(s)
    decreases |s|
  {
    if s == [] then [] else [First(s)] + Notes(Behind(s))
  }

  /** A name that is not empty ends with a terminator. */
  lemma NotAllNamed(ns: seq<Note>)
    ensures !AllNamed(ns) <==> exists n :: n in ns && n.name != [] && n.name[|n.name| - 1] != 0
  {
    if !AllNamed(ns) {
      var k :| 0 <= k < |ns| && !Named(ns[k]);
      assert ns[k] in ns;
    }
  }

  /** How far the walk goes: the sizes of all notes with their padding. */
  function Walked(s: seq<byte>): nat
    requires InBounds(s)
    decreases |s|
  {
    if s == [] then 0 else NoteSize(s) + Walked(Behind(s))
  }

  predicate Named(n: Note) {
    n.name == [] || n.name[|n.name| - 1] == 0
  }

  predicate AllNamed(ns: seq<Note>) {
    forall k :: 0 <= k < |ns| ==> Named(ns[k])
  }

  /** The first walk; `end` is where the note pointer stops, counted from the first note. */
  method CountNotes(s: seq<byte>) returns (n: nat, end: nat)
    requires InBounds(s)
    ensures n == |Notes(s)| && end == Walked(s)
  {
    n, end := 0, 0;
    var note := s;
    while note != []
      invariant InBounds(note) && n + |Notes(note)| == |Notes(s)| && end + Walked(note) == Walked(s)
      decreases |note|
    {
      end := end + NoteSize(note);
      note := Behind(note);
      n := n + 1;
    }
  }

  lemma NextNote(s: seq<byte>, done: seq<Note>, note: seq<byte>)
    requires InBounds(s) && InBounds(note) && note != [] && done + Notes(note) == Notes(s)
    ensures Complete(note) && |Behind(note)| < |note| && InBounds(Behind(note))
    ensures done + [First(note)] + Notes(Behind(note)) == Notes(s)
    ensures |done| < |Notes(s)| && Notes(s)[|done|] == First(note)
  {}

  /** build_mem_notes on a note segment: the second walk fills a table sized by the first. */
  method ReadNotes(s: seq<byte>) returns (r: Outcome<seq<Note>>)
    requires InBounds(s)
    ensures r.Ok? <==> AllNamed(Notes(s))
    ensures r.Die? <==> exists n :: n in Notes(s) && n.name != [] && n.name[|n.name| - 1] != 0
    ensures r.Ok? ==> r.value == Notes(s)
  {
    hide Named, First, Behind, Complete;
    NotAllNamed(Notes(s));
    var count, end := CountNotes(s);
    var table := new Note[count](_ => Note(0, [], []));
    var i := 0;
    var note := s;
    while note != []
      invariant InBounds(note) && i <= count && table[..i] + Notes(note) == Notes(s)
      invariant AllNamed(table[..i])
      decreases |note|
    {
      NextNote(s, table[..i], note);
      if !Named(First(note)) {
        assert !Named(Notes(s)[i]);
        return Die;
      }
      ghost var done := table[..i];
      table[i] := First(note);
      assert table[..i + 1] == done + [First(note)];
      note := Behind(note);
      i := i + 1;
    }
    assert table[..i] == Notes(s);
    assert AllNamed(Notes(s));
    r := Ok(table[..i]);
  }

  const ELF_BOOT_MAGIC := 0x0E1FB007
  const EBN_BOOTLOADER_NAME := 2
  const EBN_BOOTLOADER_VERSION := 3
  const EBN_COMMAND_LINE := 4

  /** "kexec" and its terminator. */
  const BOOTLOADER: seq<byte> := [0x6b, 0x65, 0x78, 0x65, 0x63, 0]

  /** A nameless note header. */
  function Nhdr(descsz: nat, kind: nat): (r: seq<byte>)
    ensures |r| == 12
  {
    Little(0, 4) + Little(descsz, 4) + Little(kind, 4)
  }

  function PaddedNote(kind: nat, desc: seq<byte>, pad: seq<byte>): seq<byte> {
    Nhdr(|desc|, kind) + desc + pad
  }

  /** The two fixed notes between the block header and the command line's note. */
  function FixedNotes(version: seq<byte>): (r: seq<byte>)
    ensures |r| == 20 + 12 + Up4(|version|)
  {
    PaddedNote(EBN_BOOTLOADER_NAME, BOOTLOADER, Zeros(2))
    + PaddedNote(EBN_BOOTLOADER_VERSION, version, Zeros(Up4(|version|) - |version|))
  }

  /** struct boot_notes with the given b_size, b_checksum and command-line n_descsz. */
  function Header(version: seq<byte>, size: nat, checksum: nat, descsz: nat): (r: seq<byte>)
    ensures |r| == HeaderSize(version)
  {
    Little(ELF_BOOT_MAGIC, 4) + Little(size, 4) + Little(checksum, 2) + Little(3, 2)
    + FixedNotes(version) + Nhdr(descsz, EBN_COMMAND_LINE)
  }

  function HeaderSize(version: seq<byte>): (r: nat)
    ensures 56 <= r
  {
    12 + (20 + 12 + Up4(|version|)) + 12
  }

  /** The finished block: the patched header, the command line, and whatever padding follows it. */
  function Block(version: seq<byte>, cmdline: seq<byte>, pad: seq<byte>, checksum: nat): (r: seq<byte>)
    requires |pad| == Up4(|cmdline|) - |cmdline|
    ensures |r| == HeaderSize(version) + Up4(|cmdline|)
  {
    Header(version, HeaderSize(version) + Up4(|cmdline|), checksum, |cmdline|) + cmdline + pad
  }

  lemma SpliceMiddle(x: seq<byte>, y: seq<byte>, z: seq<byte>, y': seq<byte>)
    requires |y| == |y'|
    ensures Spliced(x + y + z, |x|, y') == x + y' + z
  {}

  lemma SpliceFront(b: seq<byte>, x: seq<byte>)
    requires |x| <= |b|
    ensures Spliced(b, 0, x) == x + b[|x|..]
  {}

  lemma SpliceAfter(x: seq<byte>, tail: seq<byte>, y: seq<byte>)
    requires |y| <= |tail|
    ensures Spliced(x + tail, |x|, y) == x + (y + tail[|y|..])
  {}

  lemma PatchSize(v: seq<byte>, size: nat, size': nat, checksum: nat, descsz: nat, rest: seq<byte>)
    ensures Spliced(Header(v, size, checksum, descsz) + rest, 4, Little(size', 4))
         == Header(v, size', checksum, descsz) + rest
  {}

  lemma PatchChecksum(v: seq<byte>, size: nat, checksum: nat, checksum': nat, descsz: nat, rest: seq<byte>)
    ensures Spliced(Header(v, size, checksum, descsz) + rest, 8, Little(checksum', 2))
         == Header(v, size, checksum', descsz) + rest
  {}

  lemma PatchDescsz(v: seq<byte>, size: nat, checksum: nat, descsz: nat, descsz': nat, rest: seq<byte>)
    ensures Spliced(Header(v, size, checksum, descsz) + rest, HeaderSize(v) - 8, Little(descsz', 4))
         == Header(v, size, checksum, descsz') + rest
  {
    hide Little, FixedNotes, Spliced;
    var start := Little(ELF_BOOT_MAGIC, 4) + Little(size, 4) + Little(checksum, 2) + Little(3, 2) + FixedNotes(v);
    var front, tail := start + Little(0, 4), Little(EBN_COMMAND_LINE, 4) + rest;
    SpliceMiddle(front, Little(descsz, 4), tail, Little(descsz', 4));
    forall d ensures Header(v, size, checksum, d) + rest == front + Little(d, 4) + tail {
      assert start + Nhdr(d, EBN_COMMAND_LINE) + rest == front + Little(d, 4) + tail;
    }
  }

  /** elf_boot_notes up to the placement of the block; `version` includes its terminator. The buffer comes from
      malloc, so the bytes after the command line hold anything. */
  method ElfBootNotes(version: seq<byte>, cmdline: seq<byte>) returns (notes: array<byte>, ghost pad: seq<byte>)
    requires HeaderSize(version) + Up4(|cmdline|) < 0x1_0000_0000
    ensures fresh(notes) && |pad| == Up4(|cmdline|) - |cmdline|
    ensures notes[..] == Block(version, cmdline, pad, Checksum(Block(version, cmdline, pad, 0)))
  {
    hide Header, Little, Checksum, Up4, Spliced, HeaderSize;
    var size := HeaderSize(version);
    var noteBytes := size + Up4(|cmdline|);
    notes := new byte[noteBytes];
    ghost var raw := notes[size..];
    pad := raw[|cmdline|..];
    SpliceFront(notes[..], Header(version, size, 0, 0));
    Memcpy(notes, 0, Header(version, size, 0, 0));
    SpliceAfter(Header(version, size, 0, 0), raw, cmdline);
    Memcpy(notes, size, cmdline);
    PatchSize(version, size, noteBytes, 0, 0, cmdline + pad);
    Memcpy(notes, 4, Little(noteBytes, 4));
    PatchDescsz(version, noteBytes, 0, 0, |cmdline|, cmdline + pad);
    Memcpy(notes, size - 8, Little(|cmdline|, 4));
    BlockParts(version, cmdline, pad, 0);
    var checksum := ComputeIpChecksum(notes[..]);
    PatchChecksum(version, noteBytes, 0, checksum, |cmdline|, cmdline + pad);
    Memcpy(notes, 8, Little(checksum, 2));
    BlockParts(version, cmdline, pad, checksum);
  }

  lemma BlockParts(v: seq<byte>, cmdline: seq<byte>, pad: seq<byte>, checksum: nat)
    requires |pad| == Up4(|cmdline|) - |cmdline|
    ensures Block(v, cmdline, pad, checksum)
         == Header(v, HeaderSize(v) + Up4(|cmdline|), checksum, |cmdline|) + (cmdline + pad)
  {}

  /** A block whose checksum was computed over a zero field sums to zero. */
  lemma FinishedBlockSumsToZero(v: seq<byte>, cmdline: seq<byte>, pad: seq<byte>)
    requires |pad| == Up4(|cmdline|) - |cmdline|
    ensures Checksum(Block(v, cmdline, pad, Checksum(Block(v, cmdline, pad, 0)))) == 0
  {
    hide Checksum, Up4, Nhdr, FixedNotes, Little;
    var size := HeaderSize(v) + Up4(|cmdline|);
    var front := Little(ELF_BOOT_MAGIC, 4) + Little(size, 4);
    var back := Little(3, 2) + FixedNotes(v) + Nhdr(|cmdline|, EBN_COMMAND_LINE) + cmdline + pad;
    StoredChecksumCancels(front, back);
    forall ck ensures Block(v, cmdline, pad, ck) == front + Little(ck, 2) + back {}
  }

  /** A note at the front of a segment reads back, name and descriptor each padded to four bytes, and the walk goes on
      right behind it. */
  lemma {:induction false} NamedPrefix(kind: nat, name: seq<byte>, npad: seq<byte>, desc: seq<byte>, dpad: seq<byte>,
                                       rest: seq<byte>)
    requires |name| + 3 < 0x1_0000_0000 && |desc| + 3 < 0x1_0000_0000 && kind < 0x1_0000_0000
    requires |npad| == Up4(|name|) - |name| && |dpad| == Up4(|desc|) - |desc|
    ensures var s := Little(|name|, 4) + Little(|desc|, 4) + Little(kind, 4) + name + npad + desc + dpad + rest;
            && Complete(s) && Behind(s) == rest && First(s) == Note(kind, name, desc)
            && NoteSize(s) == 12 + |name| + |npad| + |desc| + |dpad|
  {
    hide Little, FromLittle, Padded, Up4;
    var s := Little(|name|, 4) + Little(|desc|, 4) + Little(kind, 4) + name + npad + desc + dpad + rest;
    var tail := name + npad + desc + dpad + rest;
    assert s == Little(|name|, 4) + Little(|desc|, 4) + Little(kind, 4) + tail;
    HeaderReads(|name|, |desc|, kind, tail);
    hide Namesz, Descsz, Kind;
    PaddedIsUp4(|name|);
    PaddedIsUp4(|desc|);
    var d := 12 + |name| + |npad|;
    assert s[12..12 + |name|] == name && s[d..d + |desc|] == desc && s[d + |desc| + |dpad|..] == rest;
  }

  lemma {:induction false} HeaderReads(namesz: nat, descsz: nat, kind: nat, rest: seq<byte>)
    requires namesz < 0x1_0000_0000 && descsz < 0x1_0000_0000 && kind < 0x1_0000_0000
    ensures var s := Little(namesz, 4) + Little(descsz, 4) + Little(kind, 4) + rest;
            Namesz(s) == namesz && Descsz(s) == descsz && Kind(s) == kind
  {
    var s := Little(namesz, 4) + Little(descsz, 4) + Little(kind, 4) + rest;
    hide Little, FromLittle, Pow256;
    WordWidths();
    LittleRoundTrip(namesz, 4);
    LittleRoundTrip(descsz, 4);
    LittleRoundTrip(kind, 4);
    assert s[0..4] == Little(namesz, 4) && s[4..8] == Little(descsz, 4) && s[8..12] == Little(kind, 4);
  }

  /** So does a nameless note. */
  lemma {:induction false} NotePrefix(kind: nat, desc: seq<byte>, pad: seq<byte>, rest: seq<byte>)
    requires |pad| == Up4(|desc|) - |desc| && |desc| + 3 < 0x1_0000_0000 && kind < 0x1_0000_0000
    ensures var s := PaddedNote(kind, desc, pad) + rest;
            && Complete(s) && Behind(s) == rest && First(s) == Note(kind, [], desc)
            && NoteSize(s) + |rest| == |s|
  {
    hide Little, First, Behind, Complete, NoteSize;
    NamedPrefix(kind, [], [], desc, pad, rest);
    var s := PaddedNote(kind, desc, pad) + rest;
    assert s == Little(0, 4) + Little(|desc|, 4) + Little(kind, 4) + [] + [] + desc + pad + rest;
  }

  /** Walking the finished block after its header gives exactly the three notes that were written, and b_size is
      the length of the block: the walk ends exactly there. */
  lemma BlockReadsBack(v: seq<byte>, cmdline: seq<byte>, pad: seq<byte>, checksum: nat)
    requires |pad| == Up4(|cmdline|) - |cmdline| && HeaderSize(v) + Up4(|cmdline|) < 0x1_0000_0000
    ensures var b := Block(v, cmdline, pad, checksum);
            && FromLittle(b[0..4]) == 0x0E1FB007 && FromLittle(b[4..8]) == |b|
            && FromLittle(b[8..10]) == checksum % 0x1_0000
            && InBounds(b[12..]) && 12 + Walked(b[12..]) == FromLittle(b[4..8])
            && Notes(b[12..]) == [Note(2, [], [0x6b, 0x65, 0x78, 0x65, 0x63, 0]), Note(3, [], v), Note(4, [], cmdline)]
            && AllNamed(Notes(b[12..])) && FromLittle(b[10..12]) == |Notes(b[12..])|
  {
    var b := Block(v, cmdline, pad, checksum);
    var n3 := PaddedNote(EBN_COMMAND_LINE, cmdline, pad);
    var n2 := PaddedNote(EBN_BOOTLOADER_VERSION, v, Zeros(Up4(|v|) - |v|));
    var n1 := PaddedNote(EBN_BOOTLOADER_NAME, BOOTLOADER, Zeros(2));
    FieldsRead(v, cmdline, pad, checksum);
    NotePrefix(EBN_COMMAND_LINE, cmdline, pad, []);
    NotePrefix(EBN_BOOTLOADER_VERSION, v, Zeros(Up4(|v|) - |v|), n3);
    NotePrefix(EBN_BOOTLOADER_NAME, BOOTLOADER, Zeros(2), n2 + n3);
    NotesOfBlock(v, cmdline, pad, checksum);
    hide PaddedNote, Behind, Complete, First, Block, NoteSize, Padded, FromLittle, Up4;
    assert n3 + [] == n3;
    Prepend(n3, []);
    Prepend(n2 + n3, n3);
    Prepend(n1 + (n2 + n3), n2 + n3);
  }

  lemma NotesOfBlock(v: seq<byte>, cmdline: seq<byte>, pad: seq<byte>, checksum: nat)
    requires |pad| == Up4(|cmdline|) - |cmdline|
    ensures Block(v, cmdline, pad, checksum)[12..]
         == PaddedNote(EBN_BOOTLOADER_NAME, BOOTLOADER, Zeros(2))
            + (PaddedNote(EBN_BOOTLOADER_VERSION, v, Zeros(Up4(|v|) - |v|))
               + PaddedNote(EBN_COMMAND_LINE, cmdline, pad))
  {}

  lemma Prepend(s: seq<byte>, rest: seq<byte>)
    requires Complete(s) && Behind(s) == rest && InBounds(rest)
    ensures InBounds(s) && Notes(s) == [First(s)] + Notes(rest) && Walked(s) == NoteSize(s) + Walked(rest)
  {}

  lemma {:induction false} FieldsRead(v: seq<byte>, cmdline: seq<byte>, pad: seq<byte>, checksum: nat)
    requires |pad| == Up4(|cmdline|) - |cmdline| && HeaderSize(v) + Up4(|cmdline|) < 0x1_0000_0000
    ensures var b := Block(v, cmdline, pad, checksum);
            && FromLittle(b[0..4]) == 0x0E1FB007 && FromLittle(b[4..8]) == HeaderSize(v) + Up4(|cmdline|)
            && FromLittle(b[8..10]) == checksum % 0x1_0000 && FromLittle(b[10..12]) == 3
  {
    hide Little, FromLittle, Pow256, FixedNotes, Nhdr;
    var b, size := Block(v, cmdline, pad, checksum), HeaderSize(v) + Up4(|cmdline|);
    WordWidths();
    LittleRoundTrip(0x0E1FB007, 4);
    LittleRoundTrip(size, 4);
    LittleRoundTrip(checksum, 2);
    LittleRoundTrip(3, 2);
    var tail := FixedNotes(v) + Nhdr(|cmdline|, EBN_COMMAND_LINE) + cmdline + pad;
    assert b == Little(0x0E1FB007, 4) + Little(size, 4) + Little(checksum, 2) + Little(3, 2) + tail;
    assert b[0..4] == Little(0x0E1FB007, 4) && b[4..8] == Little(size, 4);
    assert b[8..10] == Little(checksum, 2) && b[10..12] == Little(3, 2);
  }
}
