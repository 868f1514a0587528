/** Format detection by magic bytes: which compression format, if any, a
    byte prefix announces. */
module Magic {

  /** The formats the reader tells apart. ZNone stands for "no known
      signature": the reader then passes the raw bytes through. */
  datatype ZType = ZNone | ZBzip2 | ZGzip | ZZip | ZZstd

  /** How many leading bytes the reader peeks at before choosing. */
  const MagicBytePrefixSize: nat := 4

  const MagicBzip2: seq<bv8> := [0x42, 0x5a, 0x68]
  const MagicGzip: seq<bv8> := [0x1f, 0x8b]
  const MagicZip: seq<bv8> := [0x50, 0x4b, 0x03, 0x04]
  const MagicZipEmptyArchive: seq<bv8> := [0x50, 0x4b, 0x05, 0x06]
  const MagicZipSpannedArchive: seq<bv8> := [0x50, 0x4b, 0x07, 0x08]
  const MagicZstd: seq<bv8> := [0x28, 0xb5, 0x2f, 0xfd]

  /** `s` begins with `prefix` (Go's bytes.HasPrefix). */
  predicate HasPrefix(s: seq<bv8>, prefix: seq<bv8>) {
    |prefix| <= |s| && s[..|prefix|] == prefix
  }

  /** The signature table as (tag, signature) entries, in the order the
      detector tries them. Every known signature appears exactly once. */
  const SignatureTable: seq<(ZType, seq<bv8>)> :=
    [ (ZBzip2, MagicBzip2), (ZGzip, MagicGzip),
      (ZZip, MagicZip), (ZZip, MagicZipEmptyArchive), (ZZip, MagicZipSpannedArchive),
      (ZZstd, MagicZstd) ]

  /** Input `magic` carries one of the signatures of tag `t`. */
  ghost predicate Matches(magic: seq<bv8>, t: ZType) {
    exists e :: e in SignatureTable && e.0 == t && HasPrefix(magic, e.1)
  }

  /** The detector: exact prefix tests, first hit wins, no hit is ZNone. */
  function ZTypeFromBytes(magic: seq<bv8>): (t: ZType)
    ensures t != ZNone ==> Matches(magic, t)
    ensures t == ZNone <==> forall e :: e in SignatureTable ==> !HasPrefix(magic, e.1)
  {
    if HasPrefix(magic, MagicBzip2) then ZBzip2
    else if HasPrefix(magic, MagicGzip) then ZGzip
    else if HasPrefix(magic, MagicZip)
         || HasPrefix(magic, MagicZipEmptyArchive)
         || HasPrefix(magic, MagicZipSpannedArchive) then ZZip
    else if HasPrefix(magic, MagicZstd) then ZZstd
    else ZNone
  }

  // ---------------------------------------------------------------------
  // Case order: a first-match scan over any ordering of the table.

  /** First-match detection over an arbitrary table of signatures: the
      switch of magic.go:17-30 read as a scan that returns the tag of the
      first entry the input begins with. It is the reference the fixed case
      order of `ZTypeFromBytes` is compared against. */
  function FirstMatch(table: seq<(ZType, seq<bv8>)>, magic: seq<bv8>): ZType {
    if table == [] then ZNone
    else if HasPrefix(magic, table[0].1) then table[0].0
    else FirstMatch(table[1..], magic)
  }

  /** No signature of one tag is a prefix of a signature of another tag. */
  ghost predicate PrefixDisjoint(table: seq<(ZType, seq<bv8>)>) {
    forall a, b :: a in table && b in table && a.0 != b.0 ==> !HasPrefix(b.1, a.1)
  }

  /** No entry claims the tag that means "nothing matched". */
  ghost predicate NoNoneTag(table: seq<(ZType, seq<bv8>)>) {
    forall e :: e in table ==> e.0 != ZNone
  }

  /** The signatures of the table are pairwise prefix-disjoint: no byte
      string can carry signatures of two different formats. */
  lemma SignatureTablePrefixDisjoint()
    ensures PrefixDisjoint(SignatureTable) && NoNoneTag(SignatureTable)
  {
    forall a, b | a in SignatureTable && b in SignatureTable && a.0 != b.0
      ensures !HasPrefix(b.1, a.1)
    {
      // Signatures of different formats already differ in their first byte,
      // except the zip family, which shares a tag.
      assert a.1[0] != b.1[0];
    }
  }

  /** Two prefixes of one input are prefixes of each other. */
  lemma PrefixesOfOneInput(s: seq<bv8>, a: seq<bv8>, b: seq<bv8>)
    requires HasPrefix(s, a) && HasPrefix(s, b) && |a| <= |b|
    ensures HasPrefix(b, a)
  {
    assert b[..|a|] == s[..|b|][..|a|] == s[..|a|];
  }

  /** An input never carries signatures of two formats. */
  lemma AtMostOneFormat(magic: seq<bv8>, t1: ZType, t2: ZType)
    requires Matches(magic, t1) && Matches(magic, t2)
    ensures t1 == t2
  {
    var a :| a in SignatureTable && a.0 == t1 && HasPrefix(magic, a.1);
    var b :| b in SignatureTable && b.0 == t2 && HasPrefix(magic, b.1);
    SignatureTablePrefixDisjoint();
    if |a.1| <= |b.1| {
      PrefixesOfOneInput(magic, a.1, b.1);
    } else {
      PrefixesOfOneInput(magic, b.1, a.1);
    }
  }

  /** With a prefix-disjoint table, first match finds every matching entry:
      whichever entry of the table the input carries, its tag is returned. */
  lemma {:induction false} FirstMatchFindsAnyMatch(table: seq<(ZType, seq<bv8>)>, magic: seq<bv8>, e: (ZType, seq<bv8>))
    requires PrefixDisjoint(table)
    requires e in table && HasPrefix(magic, e.1)
    ensures FirstMatch(table, magic) == e.0
  {
    if HasPrefix(magic, table[0].1) {
      if table[0].0 != e.0 {
        if |table[0].1| <= |e.1| {
          PrefixesOfOneInput(magic, table[0].1, e.1);
        } else {
          PrefixesOfOneInput(magic, e.1, table[0].1);
        }
        assert false;
      }
    } else {
      assert e in table[1..];
      assert PrefixDisjoint(table[1..]) by {
        forall a | a in table[1..] ensures a in table { }
      }
      FirstMatchFindsAnyMatch(table[1..], magic, e);
    }
  }

  /** First match reports ZNone exactly when no entry matches, and otherwise
      the tag of a matching entry. */
  lemma {:induction false} FirstMatchNone(table: seq<(ZType, seq<bv8>)>, magic: seq<bv8>)
    requires NoNoneTag(table)
    ensures FirstMatch(table, magic) == ZNone <==> forall e :: e in table ==> !HasPrefix(magic, e.1)
  {
    if table != [] && !HasPrefix(magic, table[0].1) {
      assert NoNoneTag(table[1..]) by {
        forall a | a in table[1..] ensures a in table { }
      }
      FirstMatchNone(table[1..], magic);
      assert forall e :: e in table ==> e == table[0] || e in table[1..];
    }
  }

  /** For every format, the detector reports it exactly when the input
      carries one of its signatures. */
  lemma DetectsExactlyTheCarriedFormat(magic: seq<bv8>, t: ZType)
    requires t != ZNone
    ensures ZTypeFromBytes(magic) == t <==> Matches(magic, t)
  {
    var r := ZTypeFromBytes(magic);
    if Matches(magic, t) && r != t {
      var e :| e in SignatureTable && e.0 == t && HasPrefix(magic, e.1);
      assert r != ZNone;
      AtMostOneFormat(magic, r, t);
    }
  }

  /** Whichever signature of the table an input begins with, the detector
      reports that signature's format. */
  lemma CarriedSignatureWins(magic: seq<bv8>, e: (ZType, seq<bv8>))
    requires e in SignatureTable && HasPrefix(magic, e.1)
    ensures ZTypeFromBytes(magic) == e.0
  {
    assert Matches(magic, e.0);
    DetectsExactlyTheCarriedFormat(magic, e.0);
  }

  /** Reordering the cases of the detector does not change its answer: a
      first-match scan over any table holding the same entries as the
      signature table agrees with the detector on every input. */
  lemma CaseOrderIrrelevant(table: seq<(ZType, seq<bv8>)>, magic: seq<bv8>)
    requires forall e :: e in table <==> e in SignatureTable
    ensures FirstMatch(table, magic) == ZTypeFromBytes(magic)
  {
    SignatureTablePrefixDisjoint();
    assert PrefixDisjoint(table) && NoNoneTag(table);
    FirstMatchNone(table, magic);
    var t := ZTypeFromBytes(magic);
    if t != ZNone {
      var e :| e in SignatureTable && e.0 == t && HasPrefix(magic, e.1);
      FirstMatchFindsAnyMatch(table, magic, e);
    }
  }

  // ---------------------------------------------------------------------
  // The detection window.

  /** The part of an input the reader looks at: its first
      MagicBytePrefixSize bytes, or all of it when shorter. */
  function Window(magic: seq<bv8>): (w: seq<bv8>)
    ensures |w| <= MagicBytePrefixSize && w <= magic
    ensures |magic| <= MagicBytePrefixSize ==> w == magic
    ensures |magic| > MagicBytePrefixSize ==> w == magic[..MagicBytePrefixSize]
  {
    if |magic| <= MagicBytePrefixSize then magic else magic[..MagicBytePrefixSize]
  }

  /** Every signature fits in the detection window. */
  lemma SignaturesFitWindow()
    ensures forall e :: e in SignatureTable ==> 0 < |e.1| <= MagicBytePrefixSize
  {
  }

  /** A signature that fits the window is seen in the window exactly when it
      is seen in the whole input. */
  lemma WindowKeepsSignature(magic: seq<bv8>, sig: seq<bv8>)
    requires |sig| <= MagicBytePrefixSize
    ensures HasPrefix(magic, sig) <==> HasPrefix(Window(magic), sig)
  {
    if |magic| > MagicBytePrefixSize && |sig| <= |magic| {
      assert Window(magic)[..|sig|] == magic[..|sig|];
    }
  }

  /** Detection depends only on the first MagicBytePrefixSize bytes. */
  lemma DetectionSeesOnlyWindow(magic: seq<bv8>)
    ensures ZTypeFromBytes(magic) == ZTypeFromBytes(Window(magic))
  {
    SignaturesFitWindow();
    forall e | e in SignatureTable
      ensures HasPrefix(magic, e.1) <==> HasPrefix(Window(magic), e.1)
    {
      WindowKeepsSignature(magic, e.1);
    }
  }

  /** An input shorter than a signature never matches it. */
  lemma TooShortNeverMatches(magic: seq<bv8>, sig: seq<bv8>)
    requires |magic| < |sig|
    ensures !HasPrefix(magic, sig)
  {
  }

  /** An input shorter than the shortest signature (gzip's two bytes) is
      never classified as any format. */
  lemma ShorterThanEverySignatureIsNone(magic: seq<bv8>)
    requires |magic| < |MagicGzip|
    ensures ZTypeFromBytes(magic) == ZNone
  {
    TooShortNeverMatches(magic, MagicBzip2);
    TooShortNeverMatches(magic, MagicGzip);
    TooShortNeverMatches(magic, MagicZip);
    TooShortNeverMatches(magic, MagicZipEmptyArchive);
    TooShortNeverMatches(magic, MagicZipSpannedArchive);
    TooShortNeverMatches(magic, MagicZstd);
  }

  /** What each signature is classified as. */
  lemma ClassifiesEachSignature(magic: seq<bv8>)
    ensures HasPrefix(magic, MagicBzip2) ==> ZTypeFromBytes(magic) == ZBzip2
    ensures HasPrefix(magic, MagicGzip) ==> ZTypeFromBytes(magic) == ZGzip
    ensures (HasPrefix(magic, MagicZip) || HasPrefix(magic, MagicZipEmptyArchive)
             || HasPrefix(magic, MagicZipSpannedArchive)) ==> ZTypeFromBytes(magic) == ZZip
    ensures HasPrefix(magic, MagicZstd) ==> ZTypeFromBytes(magic) == ZZstd
  {
    if HasPrefix(magic, MagicBzip2) { CarriedSignatureWins(magic, (ZBzip2, MagicBzip2)); }
    if HasPrefix(magic, MagicGzip) { CarriedSignatureWins(magic, (ZGzip, MagicGzip)); }
    if HasPrefix(magic, MagicZip) { CarriedSignatureWins(magic, (ZZip, MagicZip)); }
    if HasPrefix(magic, MagicZipEmptyArchive) { CarriedSignatureWins(magic, (ZZip, MagicZipEmptyArchive)); }
    if HasPrefix(magic, MagicZipSpannedArchive) { CarriedSignatureWins(magic, (ZZip, MagicZipSpannedArchive)); }
    if HasPrefix(magic, MagicZstd) { CarriedSignatureWins(magic, (ZZstd, MagicZstd)); }
  }

  /** Empty input, and inputs that stop short of the only signature they
      begin like, are not classified as any format. */
  lemma ShortInputsAreNone()
    ensures ZTypeFromBytes([]) == ZNone
    ensures ZTypeFromBytes([0x50, 0x4b, 0x03]) == ZNone && ZTypeFromBytes([0x28, 0xb5, 0x2f]) == ZNone
  {
    var zip3: seq<bv8>, zstd3: seq<bv8> := [0x50, 0x4b, 0x03], [0x28, 0xb5, 0x2f];
    assert zip3[..3][0] != MagicBzip2[0] && zip3[..2][0] != MagicGzip[0];
    assert zstd3[..3][0] != MagicBzip2[0] && zstd3[..2][0] != MagicGzip[0];
  }
}
