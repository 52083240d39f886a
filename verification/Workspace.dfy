/**
 The identity of a dirty workspace: the bytes `workspace_snapshot` feeds to the hasher for a
 sorted, duplicate-free file list.
 */
module Workspace {
  import opened Names

  type Bytes = seq<Byte>

  /** The three executable bits kept from a file mode. */
  datatype Exec = Exec(user: bool, group: bool, other: bool)
  {
    /** The mode masked with octal 111. */
    function Bits(): nat {
      (if user then 64 else 0) + (if group then 8 else 0) + (if other then 1 else 0)
    }
  }

  datatype Meta = Regular(exec: Exec, content: Bytes) | Link(target: Bytes) | Unsupported

  /** The kept bits are those of the mode at octal 100, 010 and 001, each at its place. */
  lemma BitsAreMasked(mode: bv32)
    ensures (mode & 0x49) as int
            == Exec(mode & 0x40 != 0, mode & 0x08 != 0, mode & 0x01 != 0).Bits()
  {
    MaskedBits(mode);
  }

  lemma MaskedBits(mode: bv32)
    ensures mode & 0x49 == (if mode & 0x40 != 0 then 0x40 else 0) | (if mode & 0x08 != 0 then 0x08 else 0)
                           | (if mode & 0x01 != 0 then 0x01 else 0)
  {}

  // ---- Byte encodings ----

  /** Byte `i` of `n`, counting from the least significant. */
  function Digit(n: nat, i: nat): Byte {
    if i == 0 then n % 256 else Digit(n / 256, i - 1)
  }

  /** The low `width` bytes of `n`, least significant first. */
  function LittleEndian(n: nat, width: nat): (r: Bytes)
    ensures |r| == width
  {
    seq(width, i requires 0 <= i => Digit(n, i))
  }

  function Pow256(width: nat): nat {
    if width == 0 then 1 else 256 * Pow256(width - 1)
  }

  lemma {:induction false} DigitsInjective(n: nat, m: nat, width: nat)
    requires n < Pow256(width) && m < Pow256(width)
    requires forall i :: 0 <= i < width ==> Digit(n, i) == Digit(m, i)
    ensures n == m
    decreases width
  {
    if width > 0 {
      assert Digit(n, 0) == Digit(m, 0);
      forall i | 0 <= i < width - 1 ensures Digit(n / 256, i) == Digit(m / 256, i) {
        assert Digit(n, i + 1) == Digit(m, i + 1);
      }
      DigitsInjective(n / 256, m / 256, width - 1);
    }
  }

  lemma LittleEndianInjective(n: nat, m: nat, width: nat)
    requires n < Pow256(width) && m < Pow256(width) && LittleEndian(n, width) == LittleEndian(m, width)
    ensures n == m
  {
    forall i | 0 <= i < width ensures Digit(n, i) == Digit(m, i) {
      assert LittleEndian(n, width)[i] == Digit(n, i) && LittleEndian(m, width)[i] == Digit(m, i);
    }
    DigitsInjective(n, m, width);
  }

  /** The number whose bytes, least significant first, are `bytes`. */
  function Number(bytes: Bytes): nat {
    if bytes == [] then 0 else bytes[0] + 256 * Number(bytes[1..])
  }

  /** A number that fits is written as its bytes from the least significant on. */
  lemma {:induction false} LittleEndianReadsBack(n: nat, width: nat)
    requires n < Pow256(width)
    ensures Number(LittleEndian(n, width)) == n
    decreases width
  {
    if width > 0 {
      LittleEndianReadsBack(n / 256, width - 1);
      var bytes := LittleEndian(n, width);
      assert bytes[0] == n % 256;
      assert bytes[1..] == LittleEndian(n / 256, width - 1);
    }
  }

  /** Representable in 64 bits, as every length is. */
  predicate IsU64(n: nat) { n < 0x1_0000_0000_0000_0000 }

  const SYMLINK_TAG: Bytes := [115, 121, 109, 108, 105, 110, 107]
  const FILE_TAG: Bytes := [102, 105, 108, 101]

  /** A length in eight bytes, then the data. */
  function Prefixed(data: Bytes): Bytes { LittleEndian(|data|, 8) + data }

  function EncodeMeta(meta: Meta): Bytes
    requires !meta.Unsupported?
  {
    match meta
    case Link(target) => SYMLINK_TAG + Prefixed(target)
    case Regular(exec, content) => FILE_TAG + (LittleEndian(exec.Bits(), 4) + Prefixed(content))
  }

  datatype File = File(relative: Bytes, meta: Meta)

  function EncodeFile(f: File): Bytes
    requires !f.meta.Unsupported?
  {
    Prefixed(f.relative) + EncodeMeta(f.meta)
  }

  function Concat(chunks: seq<Bytes>): Bytes {
    if chunks == [] then [] else chunks[0] + Concat(chunks[1..])
  }

  predicate Supported(files: seq<File>) {
    forall i :: 0 <= i < |files| ==> !files[i].meta.Unsupported?
  }

  function Encoded(files: seq<File>): (r: seq<Bytes>)
    requires Supported(files)
    ensures |r| == |files| && forall i :: 0 <= i < |r| ==> r[i] == EncodeFile(files[i])
  {
    seq(|files|, i requires 0 <= i < |files| => EncodeFile(files[i]))
  }

  /** The stream hashed for a file list; nothing if some file is neither a regular file nor a symlink. */
  function Stream(files: seq<File>): Option<Bytes> {
    if Supported(files) then Some(Concat(Encoded(files))) else None
  }

  /** Every length in the list fits in 64 bits, as the lengths of real files do. */
  predicate FitsFile(f: File) {
    IsU64(|f.relative|)
    && match f.meta
       case Regular(_, content) => IsU64(|content|)
       case Link(target) => IsU64(|target|)
       case Unsupported => true
  }

  /** Small numbers fill one byte. */
  lemma LittleEndianOfByte(n: nat, width: nat)
    requires n < 256 && width > 0
    ensures LittleEndian(n, width) == [n] + seq(width - 1, _ => 0)
  {
    forall i | 0 < i < width ensures Digit(n, i) == 0 {
      DigitsOfZero(i - 1);
    }
  }

  lemma {:induction false} DigitsOfZero(i: nat)
    ensures Digit(0, i) == 0
  {
    if i > 0 {
      DigitsOfZero(i - 1);
    }
  }

  /** The record of `a` holding `hi`, executable by its user and by others, byte by byte. */
  lemma {:induction false} RecordOfAFile()
    ensures EncodeFile(File([97], Regular(Exec(true, false, true), [104, 105])))
            == [1, 0, 0, 0, 0, 0, 0, 0, 97] + [102, 105, 108, 101] + [65, 0, 0, 0]
               + [2, 0, 0, 0, 0, 0, 0, 0, 104, 105]
  {
    LittleEndianOfByte(1, 8);
    LittleEndianOfByte(65, 4);
    LittleEndianOfByte(2, 8);
    assert EncodeFile(File([97], Regular(Exec(true, false, true), [104, 105])))
        == Prefixed([97]) + (FILE_TAG + (LittleEndian(65, 4) + Prefixed([104, 105])));
  }

  /** The record of the symlink `a` to `hi`. */
  lemma {:induction false} RecordOfALink()
    ensures EncodeFile(File([97], Link([104, 105])))
            == [1, 0, 0, 0, 0, 0, 0, 0, 97] + [115, 121, 109, 108, 105, 110, 107]
               + [2, 0, 0, 0, 0, 0, 0, 0, 104, 105]
  {
    LittleEndianOfByte(1, 8);
    LittleEndianOfByte(2, 8);
    assert EncodeFile(File([97], Link([104, 105]))) == Prefixed([97]) + (SYMLINK_TAG + Prefixed([104, 105]));
  }

  // ---- Unique decodability ----

  lemma SplitEqual(a: Bytes, b: Bytes, c: Bytes, d: Bytes)
    requires a + b == c + d && |a| == |c|
    ensures a == c && b == d
  {
    assert a == (a + b)[..|a|] && c == (c + d)[..|c|];
    assert b == (a + b)[|a|..] && d == (c + d)[|c|..];
  }

  lemma PrefixedUnique(a: Bytes, rest: Bytes, b: Bytes, rest': Bytes)
    requires IsU64(|a|) && IsU64(|b|) && Prefixed(a) + rest == Prefixed(b) + rest'
    ensures a == b && rest == rest'
  {
    assert LittleEndian(|a|, 8) + (a + rest) == Prefixed(a) + rest;
    assert LittleEndian(|b|, 8) + (b + rest') == Prefixed(b) + rest';
    SplitEqual(LittleEndian(|a|, 8), a + rest, LittleEndian(|b|, 8), b + rest');
    LittleEndianInjective(|a|, |b|, 8);
    SplitEqual(a, rest, b, rest');
  }

  lemma LinkForm(t: Bytes, rest: Bytes)
    ensures EncodeMeta(Link(t)) + rest == SYMLINK_TAG + (Prefixed(t) + rest)
  {}

  lemma RegularForm(e: Exec, c: Bytes, rest: Bytes)
    ensures EncodeMeta(Regular(e, c)) + rest == FILE_TAG + (LittleEndian(e.Bits(), 4) + (Prefixed(c) + rest))
  {
    var x := LittleEndian(e.Bits(), 4);
    assert FILE_TAG + (x + Prefixed(c)) + rest == FILE_TAG + (x + (Prefixed(c) + rest));
  }

  /** A symlink record never starts like a file record. */
  lemma TagsDiffer(a: Bytes, b: Bytes)
    ensures SYMLINK_TAG + a != FILE_TAG + b
  {
    assert (SYMLINK_TAG + a)[0] == 115 && (FILE_TAG + b)[0] == 102;
  }

  lemma MetaUnique(a: Meta, rest: Bytes, b: Meta, rest': Bytes)
    requires !a.Unsupported? && !b.Unsupported?
    requires FitsFile(File([], a)) && FitsFile(File([], b))
    requires EncodeMeta(a) + rest == EncodeMeta(b) + rest'
    ensures a == b && rest == rest'
  {
    match (a, b) {
      case (Link(t), Link(u)) =>
        LinkForm(t, rest);
        LinkForm(u, rest');
        SplitEqual(SYMLINK_TAG, Prefixed(t) + rest, SYMLINK_TAG, Prefixed(u) + rest');
        PrefixedUnique(t, rest, u, rest');
      case (Regular(e, c), Regular(g, d)) =>
        RegularForm(e, c, rest);
        RegularForm(g, d, rest');
        RegularUnique(e, c, rest, g, d, rest');
      case (Link(t), Regular(g, d)) =>
        LinkForm(t, rest);
        RegularForm(g, d, rest');
        TagsDiffer(Prefixed(t) + rest, LittleEndian(g.Bits(), 4) + (Prefixed(d) + rest'));
      case (Regular(e, c), Link(u)) =>
        RegularForm(e, c, rest);
        LinkForm(u, rest');
        TagsDiffer(Prefixed(u) + rest', LittleEndian(e.Bits(), 4) + (Prefixed(c) + rest));
    }
  }

  lemma RegularUnique(e: Exec, c: Bytes, rest: Bytes, g: Exec, d: Bytes, rest': Bytes)
    requires IsU64(|c|) && IsU64(|d|)
    requires FILE_TAG + (LittleEndian(e.Bits(), 4) + (Prefixed(c) + rest))
          == FILE_TAG + (LittleEndian(g.Bits(), 4) + (Prefixed(d) + rest'))
    ensures e == g && c == d && rest == rest'
  {
    var x, y := LittleEndian(e.Bits(), 4), LittleEndian(g.Bits(), 4);
    SplitEqual(FILE_TAG, x + (Prefixed(c) + rest), FILE_TAG, y + (Prefixed(d) + rest'));
    SplitEqual(x, Prefixed(c) + rest, y, Prefixed(d) + rest');
    LittleEndianInjective(e.Bits(), g.Bits(), 4);
    PrefixedUnique(c, rest, d, rest');
  }

  lemma FileForm(f: File, rest: Bytes)
    requires !f.meta.Unsupported?
    ensures EncodeFile(f) + rest == Prefixed(f.relative) + (EncodeMeta(f.meta) + rest)
  {}

  lemma FileUnique(f: File, rest: Bytes, g: File, rest': Bytes)
    requires !f.meta.Unsupported? && !g.meta.Unsupported? && FitsFile(f) && FitsFile(g)
    requires EncodeFile(f) + rest == EncodeFile(g) + rest'
    ensures f == g && rest == rest'
  {
    FileForm(f, rest);
    FileForm(g, rest');
    PrefixedUnique(f.relative, EncodeMeta(f.meta) + rest, g.relative, EncodeMeta(g.meta) + rest');
    MetaUnique(f.meta, rest, g.meta, rest');
  }

  lemma EncodedTail(files: seq<File>)
    requires Supported(files) && files != []
    ensures Supported(files[1..])
    ensures Concat(Encoded(files)) == EncodeFile(files[0]) + Concat(Encoded(files[1..]))
  {
    assert Encoded(files)[1..] == Encoded(files[1..]);
  }

  lemma HeadsAgree(files: seq<File>, others: seq<File>)
    requires Supported(files) && Supported(others) && files != [] && others != []
    requires Concat(Encoded(files)) == Concat(Encoded(others)) && FitsFile(files[0]) && FitsFile(others[0])
    ensures files[0] == others[0] && Supported(files[1..]) && Supported(others[1..])
    ensures Concat(Encoded(files[1..])) == Concat(Encoded(others[1..]))
  {
    EncodedTail(files);
    EncodedTail(others);
    FileUnique(files[0], Concat(Encoded(files[1..])), others[0], Concat(Encoded(others[1..])));
  }

  ghost predicate AllFit(files: seq<File>) {
    forall i :: 0 <= i < |files| ==> FitsFile(files[i])
  }

  lemma {:induction false} ConcatUnique(files: seq<File>, others: seq<File>)
    requires Supported(files) && Supported(others) && Concat(Encoded(files)) == Concat(Encoded(others))
    requires AllFit(files) && AllFit(others)
    ensures files == others
    decreases |files|
  {
    if files != [] && others != [] {
      HeadsAgree(files, others);
      ConcatUnique(files[1..], others[1..]);
    }
  }

  /** The byte stream determines the file list: paths, kinds, executable bits, contents and targets. */
  lemma {:induction false} StreamIsUniquelyDecodable(files: seq<File>, others: seq<File>)
    requires Stream(files).Some? && Stream(files) == Stream(others)
    requires AllFit(files) && AllFit(others)
    ensures files == others
  {
    ConcatUnique(files, others);
  }
}
