// An encoder of ELF-32 files, and the proof that the loader reads back the fields it was given.

module ElfLayout {
  import opened Words
  import opened Outcomes
  import opened Ram
  import opened Board
  import opened Loader

  datatype ProgramHeader = ProgramHeader(
    ptype: u32, offset: u32, vaddr: u32, paddr: u32, filesz: u32, memsz: u32, flags: u32, align: u32)
  {
    function Fields(): (s: seq<u32>)
      ensures |s| == 8
    {
      [ptype, offset, vaddr, paddr, filesz, memsz, flags, align]
    }
  }

  /** ident: the 20 bytes from e_ident[4] to e_version.  sections: e_shoff, e_flags and e_ehsize.  tail: the
      last three halfwords of the header.  The loader reads none of them. */
  datatype Elf = Elf(ident: seq<byte>, entry: u32, sections: seq<byte>, tail: seq<byte>, headers: seq<ProgramHeader>, payload: seq<byte>)
  {
    predicate Valid() {
      |ident| == 20 && |sections| == 10 && |tail| == 6 && |headers| < 0x1_0000
    }
  }

  function WordBytes(ws: seq<u32>): (s: seq<byte>)
    ensures |s| == 4 * |ws|
    decreases |ws|
  {
    if ws == [] then [] else LeBytes(ws[0], 4) + WordBytes(ws[1..])
  }

  function HeaderWords(hs: seq<ProgramHeader>): (ws: seq<u32>)
    ensures |ws| == 8 * |hs|
    decreases |hs|
  {
    if hs == [] then [] else hs[0].Fields() + HeaderWords(hs[1..])
  }

  /** The file header up to e_ident and e_version, the entry point and the program header offset. */
  function Encode(e: Elf): seq<byte>
    requires e.Valid()
  {
    Prefix(e) + WordBytes(HeaderWords(e.headers)) + e.payload
  }

  function Prefix(e: Elf): (s: seq<byte>)
    requires e.Valid()
    ensures |s| == 52
  {
    LeBytes(ELF_MAGIC, 4) + e.ident + LeBytes(e.entry, 4) + LeBytes(52, 4) + e.sections
    + LeBytes(32, 2) + LeBytes(|e.headers|, 2) + e.tail
  }

  lemma {:induction false} WordBytesAt(ws: seq<u32>, k: nat)
    requires k < |ws|
    ensures WordBytes(ws)[4 * k..4 * k + 4] == LeBytes(ws[k], 4)
    decreases k
  {
    hide LeBytes;
    var s := WordBytes(ws);
    if k == 0 {
      assert s[0..4] == LeBytes(ws[0], 4);
    } else {
      WordBytesAt(ws[1..], k - 1);
      assert s[4 * k..4 * k + 4] == WordBytes(ws[1..])[4 * (k - 1)..4 * (k - 1) + 4];
    }
  }

  lemma {:induction false} HeaderWordsAt(hs: seq<ProgramHeader>, i: nat, j: nat)
    requires i < |hs| && j < 8
    ensures HeaderWords(hs)[8 * i + j] == hs[i].Fields()[j]
    decreases i
  {
    if i > 0 {
      HeaderWordsAt(hs[1..], i - 1, j);
      assert HeaderWords(hs)[8 * i + j] == HeaderWords(hs[1..])[8 * (i - 1) + j];
    }
  }

  lemma WordAt(buf: seq<byte>, at: nat, w: u32)
    requires at + 4 <= |buf| && buf[at..at + 4] == LeBytes(w, 4)
    ensures U32At(buf, at) == w
  {
    HandlerReadIsLe(buf, at, 4);
    LeOfBytes(w);
  }

  lemma HalfAt(buf: seq<byte>, at: nat, w: u16)
    requires at + 2 <= |buf| && buf[at..at + 2] == LeBytes(w, 2)
    ensures U16At(buf, at) == w
  {
    LeBytesIndex(w, 2);
    HandlerReadIsLe(buf, at, 2);
    LeUpTo4(buf[at..at + 2]);
  }

  lemma PrefixSlices(e: Elf)
    requires e.Valid()
    ensures var s := Prefix(e);
            && s[0..4] == LeBytes(ELF_MAGIC, 4) && s[24..28] == LeBytes(e.entry, 4) && s[28..32] == LeBytes(52, 4)
            && s[42..44] == LeBytes(32, 2) && s[44..46] == LeBytes(|e.headers|, 2)
  {
    hide LeBytes;
  }

  lemma EncodePrefix(e: Elf, at: nat, n: nat)
    requires e.Valid() && at + n <= 52
    ensures |Encode(e)| >= 52 && Encode(e)[at..at + n] == Prefix(e)[at..at + n]
  {
    hide Prefix;
  }

  /** The loader reads back the file header. */
  lemma FileHeader(e: Elf)
    requires e.Valid()
    ensures var buf := Encode(e);
            && |buf| >= 46 && U32At(buf, 0) == ELF_MAGIC && U32At(buf, 24) == e.entry
            && Phnum(buf) == |e.headers| && U32At(buf, 28) == 52 && U16At(buf, 42) == 32
            && forall i: nat :: HeaderAt(buf, i) == 52 + i * 32
  {
    var buf := Encode(e);
    PrefixSlices(e);
    EncodePrefix(e, 0, 4);
    EncodePrefix(e, 24, 4);
    EncodePrefix(e, 28, 4);
    EncodePrefix(e, 42, 2);
    EncodePrefix(e, 44, 2);
    hide Encode;
    hide Prefix;
    hide LeBytes;
    hide U32At;
    hide U16At;
    WordAt(buf, 0, ELF_MAGIC);
    WordAt(buf, 24, e.entry);
    WordAt(buf, 28, 52);
    HalfAt(buf, 42, 32);
    HalfAt(buf, 44, |e.headers|);
  }

  lemma MiddleSlice(pre: seq<byte>, mid: seq<byte>, post: seq<byte>, a: nat, b: nat)
    requires a <= b <= |mid|
    ensures (pre + mid + post)[|pre| + a..|pre| + b] == mid[a..b]
  {
  }

  lemma FieldAt(e: Elf, i: nat, j: nat)
    requires e.Valid() && i < |e.headers| && j < 8
    ensures |Encode(e)| >= 52 + 32 * i + 32
    ensures U32At(Encode(e), 52 + 32 * i + 4 * j) == e.headers[i].Fields()[j]
  {
    hide Prefix;
    hide HeaderWords;
    hide WordBytes;
    hide LeBytes;
    hide U32At;
    hide ProgramHeader.Fields;
    var ws := HeaderWords(e.headers);
    var buf, k := Encode(e), 8 * i + j;
    WordBytesAt(ws, k);
    HeaderWordsAt(e.headers, i, j);
    MiddleSlice(Prefix(e), WordBytes(ws), e.payload, 4 * k, 4 * k + 4);
    WordAt(buf, 52 + 4 * k, e.headers[i].Fields()[j]);
  }

  /** The loader reads back every program header. */
  lemma ProgramHeaders(e: Elf, i: nat)
    requires e.Valid() && i < |e.headers|
    ensures var buf, h := Encode(e), e.headers[i];
            && Readable(buf, i) && (IsLoad(buf, i) <==> h.ptype == PT_LOAD)
            && Seg(buf, i) == Segment(h.offset, h.vaddr, h.filesz, h.memsz)
  {
    hide Encode;
    hide U32At;
    hide U16At;
    hide HeaderAt;
    FileHeader(e);
    assert HeaderAt(Encode(e), i) == 52 + 32 * i;
    FieldAt(e, i, 0);
    FieldAt(e, i, 1);
    FieldAt(e, i, 2);
    FieldAt(e, i, 4);
    FieldAt(e, i, 5);
  }

  /** load_elf of an encoded file succeeds exactly when its PT_LOAD segments fit, and returns its entry. */
  lemma EncodedFileLoads(b: BoardState, e: Elf)
    requires e.Valid()
    ensures LoadElf(b, Encode(e)).Ok? <==>
              forall i | 0 <= i < |e.headers| && e.headers[i].ptype == PT_LOAD ::
                Fits(Encode(e), Segment(e.headers[i].offset, e.headers[i].vaddr, e.headers[i].filesz, e.headers[i].memsz))
    ensures LoadElf(b, Encode(e)).Ok? ==> LoadElf(b, Encode(e)).value.1 == e.entry
  {
    FileHeader(e);
    hide Encode;
    hide Fits;
    hide U32At;
    hide Seg;
    hide IsLoad;
    hide Readable;
    hide LoadFrom;
    var buf := Encode(e);
    LoadElfIff(b, buf);
    forall i: nat | i < |e.headers|
      ensures Readable(buf, i) && (IsLoad(buf, i) <==> e.headers[i].ptype == PT_LOAD)
      ensures Seg(buf, i) == Segment(e.headers[i].offset, e.headers[i].vaddr, e.headers[i].filesz, e.headers[i].memsz)
    {
      ProgramHeaders(e, i);
    }
  }
}
