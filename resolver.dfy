/** `resolve_guest_entry`: finds the registered guest a user names, either by its
    name or by the hex spelling of its image digest. */
module Resolver {
  import opened Wrappers
  import opened Hex
  import opened RelayTypes

  /** A guest image id as the build step produces it: eight 32-bit words. */
  type ImageId = s: seq<bv32> | |s| == 8 witness [0, 0, 0, 0, 0, 0, 0, 0]

  /** A 32-byte image digest. */
  type Digest = s: Bytes | |s| == 32 witness seq(32, _ => 0)

  /** One entry of the guest list: its name, image id and program bytes. */
  datatype GuestEntry = GuestEntry(name: string, imageId: ImageId, elf: Bytes)

  /** Byte `k` of a word, least significant first. */
  function WordByte(w: bv32, k: nat): bv8
    requires k < 4
  {
    var shifted := if k == 0 then w else if k == 1 then w >> 8 else if k == 2 then w >> 16 else w >> 24;
    (shifted & 0xFF) as bv8
  }

  /** The word whose little-endian bytes are `b0 b1 b2 b3`. */
  function WordOfBytes(b0: bv8, b1: bv8, b2: bv8, b3: bv8): bv32 {
    (b0 as bv32) | ((b1 as bv32) << 8) | ((b2 as bv32) << 16) | ((b3 as bv32) << 24)
  }

  lemma WordBytesRoundTrip(w: bv32)
    ensures WordOfBytes(WordByte(w, 0), WordByte(w, 1), WordByte(w, 2), WordByte(w, 3)) == w
  {
  }

  lemma BytesWordRoundTrip(b0: bv8, b1: bv8, b2: bv8, b3: bv8)
    ensures var w := WordOfBytes(b0, b1, b2, b3);
      WordByte(w, 0) == b0 && WordByte(w, 1) == b1 && WordByte(w, 2) == b2 && WordByte(w, 3) == b3
  {
  }

  /** `bytemuck::cast::<[u32; 8], [u8; 32]>`, with the little-endian word layout of the
      targets the relay runs on. */
  function ImageIdBytes(id: ImageId): (d: Digest)
    ensures forall j :: 0 <= j < 8 ==>
      d[4 * j..4 * j + 4] == [WordByte(id[j], 0), WordByte(id[j], 1), WordByte(id[j], 2), WordByte(id[j], 3)]
  {
    var d := seq(32, i requires 0 <= i < 32 => WordByte(id[i / 4], i % 4));
    LittleEndianLayout(id, d);
    d
  }

  /** A byte string built byte by byte from the words of `id`, least significant byte
      first, holds word `j` in bytes `4 * j` to `4 * j + 3`. */
  lemma LittleEndianLayout(id: ImageId, d: seq<bv8>)
    requires |d| == 32 && forall i :: 0 <= i < 32 ==> d[i] == WordByte(id[i / 4], i % 4)
    ensures forall j :: 0 <= j < 8 ==>
      d[4 * j..4 * j + 4] == [WordByte(id[j], 0), WordByte(id[j], 1), WordByte(id[j], 2), WordByte(id[j], 3)]
  {
    forall j | 0 <= j < 8
      ensures d[4 * j..4 * j + 4] == [WordByte(id[j], 0), WordByte(id[j], 1), WordByte(id[j], 2), WordByte(id[j], 3)]
    {
      assert (4 * j) / 4 == j && (4 * j) % 4 == 0;
      assert (4 * j + 1) / 4 == j && (4 * j + 1) % 4 == 1;
      assert (4 * j + 2) / 4 == j && (4 * j + 2) % 4 == 2;
      assert (4 * j + 3) / 4 == j && (4 * j + 3) % 4 == 3;
    }
  }

  /** The image id whose little-endian layout is `d`. */
  function DigestImageId(d: Digest): ImageId {
    seq(8, j requires 0 <= j < 8 => WordOfBytes(d[4 * j], d[4 * j + 1], d[4 * j + 2], d[4 * j + 3]))
  }

  /** Byte `t` of word `j` sits at position `4 * j + t` of the digest. */
  lemma ByteOfWord(id: ImageId, j: nat, t: nat)
    requires j < 8 && t < 4
    ensures ImageIdBytes(id)[4 * j + t] == WordByte(id[j], t)
  {
    var d := ImageIdBytes(id);
    assert d[4 * j..4 * j + 4][t] == d[4 * j + t];
  }

  /** The word-to-byte cast loses nothing: the image id comes back from its digest. */
  lemma ImageIdBytesRoundTrip(id: ImageId)
    ensures DigestImageId(ImageIdBytes(id)) == id
  {
    forall j | 0 <= j < 8 ensures DigestImageId(ImageIdBytes(id))[j] == id[j] {
      WordRoundTrip(id, j);
    }
  }

  lemma WordRoundTrip(id: ImageId, j: nat)
    requires j < 8
    ensures DigestImageId(ImageIdBytes(id))[j] == id[j]
  {
    var b := ImageIdBytes(id);
    var w := id[j];
    ByteOfWord(id, j, 0);
    ByteOfWord(id, j, 1);
    ByteOfWord(id, j, 2);
    ByteOfWord(id, j, 3);
    assert DigestImageId(b)[j] == WordOfBytes(b[4 * j], b[4 * j + 1], b[4 * j + 2], b[4 * j + 3]);
    WordBytesRoundTrip(w);
  }

  /** ... and every digest is the layout of exactly one image id, so comparing digests
      is the same as comparing image ids. */
  lemma DigestImageIdRoundTrip(d: Digest)
    ensures ImageIdBytes(DigestImageId(d)) == d
  {
    forall i | 0 <= i < 32 ensures ImageIdBytes(DigestImageId(d))[i] == d[i] {
      var j, t := i / 4, i % 4;
      assert i == 4 * j + t;
      WordSliceRoundTrip(d, j);
      assert ImageIdBytes(DigestImageId(d))[i] == ImageIdBytes(DigestImageId(d))[4 * j..4 * j + 4][t];
      assert d[i] == d[4 * j..4 * j + 4][t];
    }
  }

  lemma WordSliceRoundTrip(d: Digest, j: nat)
    requires j < 8
    ensures ImageIdBytes(DigestImageId(d))[4 * j..4 * j + 4] == d[4 * j..4 * j + 4]
  {
    var w := DigestImageId(d);
    assert w[j] == WordOfBytes(d[4 * j], d[4 * j + 1], d[4 * j + 2], d[4 * j + 3]);
    BytesWordRoundTrip(d[4 * j], d[4 * j + 1], d[4 * j + 2], d[4 * j + 3]);
    assert d[4 * j..4 * j + 4] == [d[4 * j], d[4 * j + 1], d[4 * j + 2], d[4 * j + 3]];
  }

  function ZeroDigest(): Digest {
    seq(32, _ => 0)
  }

  /** The digest an identifier is compared against: the identifier is lower-cased,
      stripped of every leading "0x" and hex-decoded; any decoding failure, or a
      decoded length other than 32, gives the all-zero digest. */
  function CandidateDigest(binary: string): (d: Digest)
    ensures d != ZeroDigest() ==> HexDecode(TrimLeading0x(ToLower(binary))) == Ok(d)
    ensures (var r := HexDecode(TrimLeading0x(ToLower(binary)));
             r.Ok? && |r.value| == 32 ==> d == r.value)
  {
    match HexDecode(TrimLeading0x(ToLower(binary)))
    case Ok(bytes) => if |bytes| == 32 then bytes else ZeroDigest()
    case Err(_) => ZeroDigest()
  }

  /** The test `find` applies to each entry: the stored name equals the upper-cased
      identifier, or the entry's digest equals the candidate. */
  predicate Matches(e: GuestEntry, binary: string, candidate: Digest) {
    e.name == ToUpper(binary) || ImageIdBytes(e.imageId) == candidate
  }

  /** The lowest index at or after `from` whose entry matches. */
  function FindFrom(list: seq<GuestEntry>, binary: string, candidate: Digest, from: nat): (r: Option<nat>)
    requires from <= |list|
    decreases |list| - from
    ensures r.Some? ==> from <= r.value < |list| && Matches(list[r.value], binary, candidate)
    ensures r.Some? ==> forall j :: from <= j < r.value ==> !Matches(list[j], binary, candidate)
    ensures !r.Some? ==> forall j :: from <= j < |list| ==> !Matches(list[j], binary, candidate)
  {
    if from == |list| then Option.None
    else if Matches(list[from], binary, candidate) then Some(from)
    else FindFrom(list, binary, candidate, from + 1)
  }

  /** Entry `k` matches the identifier and no earlier entry does. */
  predicate IsFirstMatch(list: seq<GuestEntry>, binary: string, k: int) {
    var candidate := CandidateDigest(binary);
    0 <= k < |list| && Matches(list[k], binary, candidate) &&
    forall j :: 0 <= j < k ==> !Matches(list[j], binary, candidate)
  }

  /** The hex digest of every entry, in list order, as the failure message lists them:
      each is 64 characters long and decodes back to that entry's digest. */
  function FoundGuests(list: seq<GuestEntry>): (found: seq<string>)
    ensures |found| == |list|
    ensures forall i :: 0 <= i < |list| ==>
      |found[i]| == 64 && HexDecode(found[i]) == Ok(ImageIdBytes(list[i].imageId))
  {
    EncodedDigestsDecode(list);
    seq(|list|, i requires 0 <= i < |list| => HexEncode(ImageIdBytes(list[i].imageId)))
  }

  lemma EncodedDigestsDecode(list: seq<GuestEntry>)
    ensures forall i :: 0 <= i < |list| ==>
      HexDecode(HexEncode(ImageIdBytes(list[i].imageId))) == Ok(ImageIdBytes(list[i].imageId))
  {
    forall i | 0 <= i < |list| {
      HexRoundTrip(ImageIdBytes(list[i].imageId));
    }
  }

  /** `resolve_guest_entry`: the first entry in list order that matches, or an
      "unknown guest" error listing the digest of every entry. */
  function ResolveGuestEntry(list: seq<GuestEntry>, binary: string): (r: Result<GuestEntry, RelayError>)
    ensures r.Ok? <==> exists k :: 0 <= k < |list| && Matches(list[k], binary, CandidateDigest(binary))
    ensures r.Ok? ==> exists k :: IsFirstMatch(list, binary, k) && r.value == list[k]
    ensures r.Err? ==> r.error.UnknownGuest? && r.error.binary == binary
    ensures r.Err? ==> |r.error.found| == |list|
    ensures r.Err? ==>
      forall i :: 0 <= i < |list| ==> r.error.found[i] == HexEncode(ImageIdBytes(list[i].imageId))
  {
    var candidate := CandidateDigest(binary);
    match FindFrom(list, binary, candidate, 0)
    case Some(k) =>
      assert Matches(list[k], binary, candidate);
      assert IsFirstMatch(list, binary, k);
      Ok(list[k])
    case None =>
      var found := FoundGuests(list);
      assert |found| == |list|;
      Err(UnknownGuest(binary, found))
  }

  lemma ToLowerAppend(a: string, b: string)
    ensures ToLower(a + b) == ToLower(a) + ToLower(b)
  {
  }

  lemma {:induction false} LowerOfRepeat0x(n: nat)
    ensures ToLower(Repeat0x(n)) == Repeat0x(n)
  {
    if n > 0 {
      ToLowerAppend("0x", Repeat0x(n - 1));
      LowerOfRepeat0x(n - 1);
    }
  }

  lemma LowerOfUpper(s: string)
    ensures ToLower(ToUpper(s)) == ToLower(s)
  {
  }

  /** Every hex spelling of a digest has that digest as its candidate: any text that
      lower-cases to some number of "0x" prefixes followed by the digest's hex digits,
      whatever the case of each letter. */
  lemma CandidateOfHexSpelling(d: Digest, n: nat, binary: string)
    requires ToLower(binary) == Repeat0x(n) + HexEncode(d)
    ensures CandidateDigest(binary) == d
  {
    var h := HexEncode(d);
    assert !StartsWith0x(h) by { assert |h| >= 2 ==> IsHexChar(h[1]); }
    TrimLeading0xOfRepeat(n, h);
    HexRoundTrip(d);
  }

  /** The usual spellings qualify: the digits in lower or upper case, each behind "0x"
      prefixes in either case. */
  lemma HexSpellingsLowerToDigest(d: Digest, n: nat)
    ensures ToLower(Repeat0x(n) + HexEncode(d)) == Repeat0x(n) + HexEncode(d)
    ensures ToLower(Repeat0x(n) + ToUpper(HexEncode(d))) == Repeat0x(n) + HexEncode(d)
    ensures ToLower(ToUpper(Repeat0x(n) + HexEncode(d))) == Repeat0x(n) + HexEncode(d)
  {
    var h := HexEncode(d);
    LowerOfRepeat0x(n);
    LowerOfEncode(d);
    ToLowerAppend(Repeat0x(n), h);
    ToLowerAppend(Repeat0x(n), ToUpper(h));
    LowerOfUpper(h);
    LowerOfUpper(Repeat0x(n) + h);
  }

  /** Identifiers that do not decode to 32 bytes (bad characters, odd length, wrong
      length) all have the all-zero candidate: they never cause a decoding error. */
  lemma MalformedCandidateIsZero(binary: string)
    requires var b := HexDecode(TrimLeading0x(ToLower(binary))); b.Err? || |b.value| != 32
    ensures CandidateDigest(binary) == ZeroDigest()
  {
  }

  /** An entry whose stored name equals the upper-cased identifier is found, unless an
      earlier entry matches first. */
  lemma ResolveByName(list: seq<GuestEntry>, binary: string, i: nat)
    requires i < |list| && list[i].name == ToUpper(binary)
    ensures ResolveGuestEntry(list, binary).Ok?
    ensures exists k :: 0 <= k <= i && IsFirstMatch(list, binary, k) && ResolveGuestEntry(list, binary).value == list[k]
  {
    assert Matches(list[i], binary, CandidateDigest(binary));
  }

  /** An entry whose digest equals the identifier's candidate is found, unless an
      earlier entry matches first. */
  lemma ResolveByCandidate(list: seq<GuestEntry>, binary: string, i: nat)
    requires i < |list| && ImageIdBytes(list[i].imageId) == CandidateDigest(binary)
    ensures ResolveGuestEntry(list, binary).Ok?
    ensures exists k :: 0 <= k <= i && IsFirstMatch(list, binary, k) && ResolveGuestEntry(list, binary).value == list[k]
  {
    assert Matches(list[i], binary, CandidateDigest(binary));
  }

  /** An entry is found by any hex spelling of its digest, unless an earlier entry
      matches first. */
  lemma ResolveByDigest(list: seq<GuestEntry>, i: nat, n: nat, binary: string)
    requires i < |list| && ToLower(binary) == Repeat0x(n) + HexEncode(ImageIdBytes(list[i].imageId))
    ensures ResolveGuestEntry(list, binary).Ok?
    ensures exists k :: 0 <= k <= i && IsFirstMatch(list, binary, k) && ResolveGuestEntry(list, binary).value == list[k]
  {
    CandidateOfHexSpelling(ImageIdBytes(list[i].imageId), n, binary);
    ResolveByCandidate(list, binary, i);
  }

  /** A malformed identifier, one that does not decode to exactly 32 bytes, still
      resolves when some entry's image id is all zeros. */
  lemma MalformedMatchesZeroImage(list: seq<GuestEntry>, binary: string, i: nat)
    requires var b := HexDecode(TrimLeading0x(ToLower(binary))); b.Err? || |b.value| != 32
    requires i < |list| && list[i].imageId == [0, 0, 0, 0, 0, 0, 0, 0]
    ensures ResolveGuestEntry(list, binary).Ok?
  {
    MalformedCandidateIsZero(binary);
    assert ImageIdBytes(list[i].imageId) == ZeroDigest();
    assert Matches(list[i], binary, CandidateDigest(binary));
  }

  /** The identifier's letter case does not matter: two identifiers equal once
      upper-cased either both resolve, to the same entry, or both fail. */
  lemma ResolveIgnoresIdentifierCase(list: seq<GuestEntry>, binary: string, other: string)
    requires ToUpper(binary) == ToUpper(other)
    ensures ResolveGuestEntry(list, binary).Ok? == ResolveGuestEntry(list, other).Ok?
    ensures ResolveGuestEntry(list, binary).Ok? ==>
      ResolveGuestEntry(list, binary).value == ResolveGuestEntry(list, other).value
  {
    LowerOfUpper(binary);
    LowerOfUpper(other);
    assert CandidateDigest(binary) == CandidateDigest(other);
    var rb, ro := ResolveGuestEntry(list, binary), ResolveGuestEntry(list, other);
    if rb.Ok? {
      var k :| IsFirstMatch(list, binary, k) && rb.value == list[k];
      assert IsFirstMatch(list, other, k);
      var k' :| IsFirstMatch(list, other, k') && ro.value == list[k'];
    }
  }

  /** The name test is exact against the upper-cased identifier, so an entry whose name
      holds a lower-case ASCII letter is never found by name, whatever is typed: it
      matches exactly when its digest is the candidate. */
  lemma LowercaseNameNeverMatchesByName(e: GuestEntry, binary: string, j: nat)
    requires j < |e.name| && 'a' <= e.name[j] <= 'z'
    ensures e.name != ToUpper(binary)
    ensures Matches(e, binary, CandidateDigest(binary)) <==>
            ImageIdBytes(e.imageId) == CandidateDigest(binary)
  {
    if |binary| == |e.name| {
      assert ToUpper(binary)[j] == UpperChar(binary[j]) != e.name[j];
    }
  }
}
