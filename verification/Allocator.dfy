// Parts of the image allocator of armsrc/desfiresim.c that both kinds of create
// share: the answers, rounding to granules, and one entry put into the tables.
module Allocator {
  import opened Octets
  import opened Image

  // Overrun is not an answer of the card: it is the branch where the file data
  // would be cleared past the end of the image.
  datatype Status = Ok | OutOfEeprom | ParameterError | Duplicate | PermissionDenied
    | WrongLength | AuthenticationError | NoSuchApplication | NoSuchFile | Overrun

  const U32 := 0x1_0000_0000

  // DESFIRE_EM_ROUNDUP in 32-bit arithmetic
  function RoundUp(x: nat): (r: nat)
    ensures r < U32
    ensures x + GRANULE <= U32 ==> x <= r < x + GRANULE
  {
    Wrap(x + (GRANULE - 1), U32) / GRANULE * GRANULE
  }

  // One entry put at `at`, everything above it up to te moved up.
  function Inserted(te: nat, m: seq<octet>, at: nat, entry: seq<octet>): (r: seq<octet>)
    requires at <= te && te + APP_SIZE <= |m| && |entry| == APP_SIZE
    ensures |r| == |m|
  {
    seq(|m|, k requires 0 <= k < |m| =>
      if k < at || te + APP_SIZE <= k then m[k] else if k < at + APP_SIZE then entry[k - at] else m[k - APP_SIZE])
  }

  // It comes about by a memmove that opens a gap and a memcpy into it.
  lemma GapThenEntry(te: nat, m: seq<octet>, at: nat, entry: seq<octet>)
    requires at <= te && te + APP_SIZE <= |m| && |entry| == APP_SIZE
    ensures Put(Put(m, at + APP_SIZE, Slice(m, at, te - at)), at, entry) == Inserted(te, m, at, entry)
  {
  }

  lemma InsertedPieces(te: nat, m: seq<octet>, at: nat, entry: seq<octet>, data: nat)
    requires at <= te && te + APP_SIZE <= data <= |m| && |entry| == APP_SIZE
    ensures Slice(Inserted(te, m, at, entry), 0, at) == Slice(m, 0, at)
    ensures Slice(Inserted(te, m, at, entry), at, APP_SIZE) == entry
    ensures Slice(Inserted(te, m, at, entry), at + APP_SIZE, te - at) == Slice(m, at, te - at)
    ensures Slice(Inserted(te, m, at, entry), data, |m| - data) == Slice(m, data, |m| - data)
  {
    var m' := Inserted(te, m, at, entry);
    assert m'[at + APP_SIZE..te + APP_SIZE] == m[at..te];
  }
}
