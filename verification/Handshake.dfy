// The three-pass mutual authentication of armsrc/desfiresim.c, in its ISO and
// AES form (CBC chained across the frames) and its legacy 0x0A form (the card
// only enciphers, every cryptogram from zeros).
module Handshake {
  import opened Wrappers
  import opened Bytes
  import opened Cbc
  import opened BlockCode

  const AUTHENTICATE: byte := 0x0A
  const AUTHENTICATE_ISO: byte := 0x1A
  const AUTHENTICATE_AES: byte := 0xAA

  const OPERATION_OK: byte := 0x00
  const ADDITIONAL_FRAME: byte := 0xAF
  const E_NO_SUCH_KEY: byte := 0x40
  const E_LENGTH: byte := 0x7E
  const E_AUTHENTICATION_ERROR: byte := 0xAE

  datatype Algorithm = DES | TDES2 | TDES3 | AES

  datatype Key = Key(algo: Algorithm, data: bytes)

  // The ciphers, one for every key.
  ghost predicate IsFamily(e: Key -> BlockCipher) {
    forall k: Key {:trigger e(k)} :: e(k).kbs == if k.algo.AES? then 16 else 8
  }

  ghost function Identity(k: Key): BlockCipher {
    RawCipher(if k.algo.AES? then 16 else 8, b => b, b => b)
  }

  type Family = e: Key -> BlockCipher | IsFamily(e) ghost witness Identity

  // What of a key reaches the cipher: DES passes over the low bit of each byte,
  // and single DES is triple DES with one key twice.
  function Schedule(k: Key): Key {
    match k.algo
    case AES => k
    case TDES3 => Key(TDES3, Each(ClearLow, k.data))
    case DES => Key(TDES2, Each(ClearLow, k.data))
    case TDES2 => Key(TDES2, Each(ClearLow, k.data))
  }

  function CipherOf(e: Family, k: Key): (c: BlockCipher)
    ensures c.kbs == if k.algo.AES? then 16 else 8
  {
    e(Schedule(k))
  }

  // desfire_sim_rndlen
  function RndLen(algo: Algorithm): nat {
    if algo.AES? || algo.TDES3? then 16 else 8
  }

  function ClearLow(x: byte): byte { x & 0xFE }
  function SetLow(x: byte): byte { x | 0x01 }

  function Each(f: byte -> byte, s: bytes): (r: bytes)
    ensures |r| == |s|
  {
    seq(|s|, i requires 0 <= i < |s| => f(s[i]))
  }

  // desfire_sim_make_key: a two-key value whose halves agree is single DES.
  function MakeKey(algo: Algorithm, value: bytes): (k: Key)
    requires |value| == 24
    ensures RndLen(k.algo) == RndLen(algo)
  {
    var des := Each(ClearLow, value[..8]);
    match algo
    case DES => Key(DES, des + des)
    case TDES2 => if value[..8] == value[8..16] then Key(DES, des + des) else Key(TDES2, des + Each(SetLow, value[8..16]))
    case TDES3 => Key(TDES3, des + value[8..24])
    case AES => Key(AES, value[..16])
  }

  // desfire_sim_session_key
  function SessionKey(algo: Algorithm, rnda: bytes, rndb: bytes): Key
    requires |rnda| == |rndb| == RndLen(algo)
  {
    match algo
    case DES => var half := rnda[..4] + rndb[..4]; Key(DES, half + half)
    case TDES2 => Key(TDES2, rnda[..4] + rndb[..4] + rnda[4..8] + rndb[4..8])
    case TDES3 => Key(TDES3, rnda[..4] + rndb[..4] + rnda[6..10] + rndb[6..10] + rnda[12..] + rndb[12..])
    case AES => Key(AES, rnda[..4] + rndb[..4] + rnda[12..] + rndb[12..])
  }

  // desfire_sim_rol
  function Rol(s: bytes): (r: bytes)
    ensures |r| == |s|
  {
    if |s| < 2 then s else s[1..] + [s[0]]
  }

  // The command has to match the application's algorithm.
  predicate Suits(cmd: byte, algo: Algorithm) {
    || (cmd == AUTHENTICATE && (algo.DES? || algo.TDES2?))
    || (cmd == AUTHENTICATE_ISO && !algo.AES?)
    || (cmd == AUTHENTICATE_AES && algo.AES?)
  }

  // ---- the cryptograms

  // Nonces are whole blocks of the cipher that carries them.
  ghost predicate Nonces(c: BlockCipher, rnda: bytes, rndb: bytes) {
    && |rnda| == |rndb| && 0 < |rndb| && Whole(c.kbs, |rndb|)
  }

  // The card's first answer.
  function Challenge(c: BlockCipher, rndb: bytes): (r: bytes)
    requires Whole(c.kbs, |rndb|)
    ensures |r| == |rndb|
  {
    Send(c, Encypher, Zeros(c.kbs), rndb)
  }

  // How the card opens the reader's token.
  function Opened(c: BlockCipher, legacy: bool, iv: bytes, token: bytes): (r: bytes)
    requires |iv| == c.kbs && Whole(c.kbs, |token|)
    ensures |r| == |token|
  {
    if legacy then Receive(c, Encypher, Zeros(c.kbs), token) else Receive(c, Decypher, iv, token)
  }

  // How a reader that knows the key and both nonces builds it.
  function Token(c: BlockCipher, legacy: bool, iv: bytes, rnda: bytes, rndb: bytes): bytes
    requires |iv| == c.kbs && Whole(c.kbs, |rnda + Rol(rndb)|)
  {
    if legacy then Send(c, Decypher, Zeros(c.kbs), rnda + Rol(rndb)) else Send(c, Encypher, iv, rnda + Rol(rndb))
  }

  // The card's last answer, chained on from the token or from zeros.
  function Reply(c: BlockCipher, legacy: bool, iv: bytes, rnda: bytes): bytes
    requires |iv| == c.kbs && Whole(c.kbs, |rnda|)
  {
    Send(c, Encypher, if legacy then Zeros(c.kbs) else iv, Rol(rnda))
  }

  lemma TokenLength(c: BlockCipher, rnda: bytes, rndb: bytes)
    requires Nonces(c, rnda, rndb)
    ensures Whole(c.kbs, |rnda + Rol(rndb)|)
  {
    WholeAdd(c.kbs, |rnda|, |rndb|);
  }

  // An honest reader's token opens to the nonces it was built from.
  lemma TokenOpens(c: BlockCipher, legacy: bool, iv: bytes, rnda: bytes, rndb: bytes)
    requires Nonces(c, rnda, rndb) && |iv| == c.kbs
    ensures Whole(c.kbs, |rnda + Rol(rndb)|)
    ensures var token := Token(c, legacy, iv, rnda, rndb); |token| == 2 * |rndb| && Opened(c, legacy, iv, token) == rnda + Rol(rndb)
  {
    TokenLength(c, rnda, rndb);
    if legacy {
      ReceiveInvertsSend(c, Decypher, Zeros(c.kbs), rnda + Rol(rndb));
    } else {
      ReceiveInvertsSend(c, Encypher, iv, rnda + Rol(rndb));
    }
  }

  // The reader reads RndB off the challenge and rotated RndA off the reply.
  lemma ReaderReads(c: BlockCipher, legacy: bool, iv: bytes, rnda: bytes, rndb: bytes)
    requires Nonces(c, rnda, rndb) && |iv| == c.kbs
    ensures Receive(c, Decypher, Zeros(c.kbs), Challenge(c, rndb)) == rndb
    ensures Receive(c, Decypher, if legacy then Zeros(c.kbs) else iv, Reply(c, legacy, iv, rnda)) == Rol(rnda)
  {
    ReceiveInvertsSend(c, Encypher, Zeros(c.kbs), rndb);
    ReceiveInvertsSend(c, Encypher, if legacy then Zeros(c.kbs) else iv, Rol(rnda));
  }

  // A token is accepted if and only if it is one a key holder could have built
  // over this RndB, for some RndA of the right length.
  ghost predicate Built(c: BlockCipher, legacy: bool, iv: bytes, rnda: bytes, rndb: bytes, token: bytes)
    requires |iv| == c.kbs
  {
    |rnda| == |rndb| && Whole(c.kbs, |rnda + Rol(rndb)|) && Token(c, legacy, iv, rnda, rndb) == token
  }

  lemma AcceptedIsBuilt(c: BlockCipher, legacy: bool, iv: bytes, token: bytes, rndb: bytes)
    requires |iv| == c.kbs && 0 < |rndb| && Whole(c.kbs, |rndb|) && |token| == 2 * |rndb|
    ensures Whole(c.kbs, |token|)
    ensures Opened(c, legacy, iv, token)[|rndb|..] == Rol(rndb) <==> exists rnda: bytes :: Built(c, legacy, iv, rnda, rndb, token)
  {
    WholeAdd(c.kbs, |rndb|, |rndb|);
    if Opened(c, legacy, iv, token)[|rndb|..] == Rol(rndb) {
      OpenedIsBuilt(c, legacy, iv, token, rndb);
    }
    forall rnda: bytes | Built(c, legacy, iv, rnda, rndb, token)
      ensures Opened(c, legacy, iv, token)[|rndb|..] == Rol(rndb)
    {
      TokenOpens(c, legacy, iv, rnda, rndb);
      Halves(rnda, Rol(rndb));
    }
  }

  lemma OpenedIsBuilt(c: BlockCipher, legacy: bool, iv: bytes, token: bytes, rndb: bytes)
    requires |iv| == c.kbs && |token| == 2 * |rndb| && Whole(c.kbs, |token|)
    requires Opened(c, legacy, iv, token)[|rndb|..] == Rol(rndb)
    ensures Built(c, legacy, iv, Opened(c, legacy, iv, token)[..|rndb|], rndb, token)
  {
    var both := Opened(c, legacy, iv, token);
    assert both[..|rndb|] + Rol(rndb) == both;
    if legacy {
      SendInvertsReceive(c, Encypher, Zeros(c.kbs), token);
    } else {
      SendInvertsReceive(c, Decypher, iv, token);
    }
  }

  lemma Halves(a: bytes, b: bytes)
    ensures (a + b)[..|a|] == a && (a + b)[|a|..] == b
  {
  }

  // ---- the reader, client/src/mifare/desfirecore.c and desfirecrypto.c

  // The key as it was given, without the card's masking.
  function ReaderKey(algo: Algorithm, value: bytes): Key
    requires |value| == 24
  {
    match algo
    case DES => Key(DES, value[..8] + value[..8])
    case TDES2 => Key(TDES2, value[..16])
    case TDES3 => Key(TDES3, value)
    case AES => Key(AES, value[..16])
  }

  // Part 3 of the exchange: RndB off the challenge.
  function ReaderNonce(c: BlockCipher, enc: bytes): bytes
    requires Whole(c.kbs, |enc|)
  {
    Receive(c, Decypher, Zeros(c.kbs), enc)
  }

  // Its token.  A legacy one is made of two runs, the first result folded into
  // the second plaintext by hand.
  function ReaderToken(c: BlockCipher, legacy: bool, enc: bytes, rnda: bytes): bytes
    requires Nonces(c, rnda, enc)
  {
    var rot := Rol(ReaderNonce(c, enc));
    if legacy then
      var first := Send(c, Decypher, Zeros(c.kbs), rnda);
      first + Send(c, Decypher, Zeros(c.kbs), Xor(rot, first))
    else
      TokenLength(c, rnda, ReaderNonce(c, enc));
      Send(c, Encypher, Carry(c.kbs, Zeros(c.kbs), enc), rnda + rot)
  }

  // What it reads off the last answer, to be compared with rotated RndA.
  function ReaderRecovers(c: BlockCipher, legacy: bool, enc: bytes, token: bytes, answer: bytes): bytes
    requires Whole(c.kbs, |enc|) && Whole(c.kbs, |token|) && Whole(c.kbs, |answer|)
  {
    Receive(c, Decypher, if legacy then Zeros(c.kbs) else Carry(c.kbs, Carry(c.kbs, Zeros(c.kbs), enc), token), answer)
  }

  // DesfireGenSessionKeyEV1
  function GenSessionKeyEV1(rnda: bytes, rndb: bytes, algo: Algorithm): bytes
    requires |rnda| == |rndb| == RndLen(algo)
  {
    match algo
    case DES => rnda[..4] + rndb[..4]
    case TDES2 => rnda[..4] + rndb[..4] + rnda[4..8] + rndb[4..8]
    case TDES3 => rnda[..4] + rndb[..4] + rnda[6..10] + rndb[6..10] + rnda[12..16] + rndb[12..16]
    case AES => rnda[..4] + rndb[..4] + rnda[12..16] + rndb[12..16]
  }

  predicate HalvesAgree(value: bytes)
    requires |value| >= 16
  {
    value[..8] == value[8..16]
  }

  // The session key it goes on with: doubled when the halves of its own key
  // agree, and used twice where it is single DES.
  function ReaderSession(algo: Algorithm, mine: bytes, rnda: bytes, rndb: bytes): Key
    requires |mine| == 24 && |rnda| == |rndb| == RndLen(algo)
  {
    var k := GenSessionKeyEV1(rnda, rndb, algo);
    if algo.DES? then Key(DES, k + k)
    else if algo.TDES2? && HalvesAgree(mine) then Key(TDES2, k[..8] + k[..8])
    else Key(algo, k)
  }

  // ---- the handshake as bytes

  // The card's second answer to what the reader sends.
  datatype Second = Turned(status: byte) | Opens(reply: bytes, session: Key)

  function Finish(e: Family, key: Key, legacy: bool, iv: bytes, rndb: bytes, input: bytes): Second
    requires |iv| == CipherOf(e, key).kbs && |rndb| == RndLen(key.algo)
  {
    var c, n := CipherOf(e, key), |rndb|;
    if |input| < 2 * n then Turned(E_LENGTH)
    else
      NonceIsWhole(e, key, n);
      WholeAdd(c.kbs, n, n);
      var token := input[..2 * n];
      var both := Opened(c, legacy, iv, token);
      if both[n..] != Rol(rndb) then Turned(E_AUTHENTICATION_ERROR)
      else Opens(Reply(c, legacy, Carry(c.kbs, iv, token), both[..n]), SessionKey(key.algo, both[..n], rndb))
  }

  lemma NonceIsWhole(e: Family, k: Key, n: nat)
    requires n == RndLen(k.algo)
    ensures Whole(CipherOf(e, k).kbs, n)
  {
    OneIsWhole(CipherOf(e, k).kbs);
    WholeAdd(CipherOf(e, k).kbs, CipherOf(e, k).kbs, CipherOf(e, k).kbs);
  }

  // The two runs of a legacy token are one chain, as long as RndA is one block.
  lemma ReaderTokenIsToken(c: BlockCipher, legacy: bool, rnda: bytes, rndb: bytes)
    requires Nonces(c, rnda, rndb) && (legacy ==> |rnda| == c.kbs)
    ensures var enc := Challenge(c, rndb);
      && ReaderNonce(c, enc) == rndb && Whole(c.kbs, |rnda + Rol(rndb)|)
      && ReaderToken(c, legacy, enc, rnda) == Token(c, legacy, Carry(c.kbs, Zeros(c.kbs), enc), rnda, rndb)
  {
    hide Send, Receive, Rol;
    ReaderReads(c, legacy, Zeros(c.kbs), rnda, rndb);
    TokenLength(c, rnda, rndb);
    if legacy {
      TwoRuns(c, rnda, Rol(rndb));
    }
  }

  lemma TwoRuns(c: BlockCipher, a: bytes, b: bytes)
    requires |a| == |b| == c.kbs
    ensures Whole(c.kbs, c.kbs) && Whole(c.kbs, |a + b|)
    ensures var first := Send(c, Decypher, Zeros(c.kbs), a);
      Send(c, Decypher, Zeros(c.kbs), a + b) == first + Send(c, Decypher, Zeros(c.kbs), Xor(b, first))
  {
    OneIsWhole(c.kbs);
    SendJoins(c, Decypher, Zeros(c.kbs), a, b);
    SendOne(c, Decypher, Zeros(c.kbs), a);
    var first := Send(c, Decypher, Zeros(c.kbs), a);
    SendOne(c, Decypher, first, b);
    SendOne(c, Decypher, Zeros(c.kbs), Xor(b, first));
    XorZero(Xor(b, first));
  }

  lemma SendOne(c: BlockCipher, op: Operation, iv: bytes, block: bytes)
    requires |iv| == |block| == c.kbs
    ensures Whole(c.kbs, |block|)
    ensures Send(c, op, iv, block) == After(c, op, iv, block) == Crypt(c, op, Xor(block, iv))
  {
    OneIsWhole(c.kbs);
    NoneIsWhole(c.kbs);
    assert block[..c.kbs] == block && block[c.kbs..] == [];
  }

  // The reader's idea of the algorithm may differ from the card's between
  // single DES and two-key triple DES.
  predicate Compatible(mode: Algorithm, algo: Algorithm) {
    mode == algo || ((mode.DES? || mode.TDES2?) && (algo.DES? || algo.TDES2?))
  }

  // A reader whose key runs the card's cipher is always let in, reads RndB and
  // rotated RndA, whatever the bits of its key that the cipher passes over.
  lemma Completes(e: Family, algo: Algorithm, mode: Algorithm, legacy: bool, value: bytes, mine: bytes, rnda: bytes, rndb: bytes)
    requires |value| == |mine| == 24 && |rnda| == |rndb| == RndLen(algo) && Compatible(mode, algo)
    requires legacy ==> algo.DES? || algo.TDES2?
    requires Schedule(ReaderKey(mode, mine)) == Schedule(MakeKey(algo, value))
    ensures var key := MakeKey(algo, value);
      var c, c' := CipherOf(e, key), CipherOf(e, ReaderKey(mode, mine));
      && Nonces(c, rnda, rndb) && c' == c
      && var enc := Challenge(c, rndb);
      var token := ReaderToken(c', legacy, enc, rnda);
      && |enc| == |rndb| && |token| == 2 * |rndb| && ReaderNonce(c', enc) == rndb && Whole(c.kbs, |token|)
      && var v := Finish(e, key, legacy, Carry(c.kbs, Zeros(c.kbs), enc), rndb, token);
      && v.Opens? && |v.reply| == |rndb| && ReaderRecovers(c', legacy, enc, token, v.reply) == Rol(rnda)
      && v.session == SessionKey(key.algo, rnda, rndb)
  {
    hide Send, Receive, Carry, Rol, MakeKey, SessionKey, Schedule, ReaderToken, ReaderNonce, ReaderKey, Token, Opened;
    var key := MakeKey(algo, value);
    var c := CipherOf(e, key);
    NonceIsWhole(e, key, |rndb|);
    WholeAdd(c.kbs, |rndb|, |rndb|);
    KindStays(algo, value);
    var enc := Challenge(c, rndb);
    var iv := Carry(c.kbs, Zeros(c.kbs), enc);
    ReaderTokenIsToken(c, legacy, rnda, rndb);
    TokenOpens(c, legacy, iv, rnda, rndb);
    var token := ReaderToken(c, legacy, enc, rnda);
    assert token[..2 * |rndb|] == token;
    Halves(rnda, Rol(rndb));
    ReaderReads(c, legacy, Carry(c.kbs, iv, token), rnda, rndb);
  }

  lemma KindStays(algo: Algorithm, value: bytes)
    requires |value| == 24
    ensures MakeKey(algo, value).algo.AES? <==> algo.AES?
  {
  }

  // Whether the reader takes its key for single DES.
  predicate TakenSingle(mode: Algorithm, mine: bytes)
    requires |mine| == 24
  {
    mode.DES? || (mode.TDES2? && HalvesAgree(mine))
  }

  function NoLow(s: bytes): (r: bytes)
    ensures |r| == |s|
  {
    Each(ClearLow, s)
  }

  // The two sides then run the same session cipher if and only if they agree on
  // whether the key is single DES, or the nonces make up for it; and they hold
  // the same bytes likewise.
  lemma OneSessionKey(algo: Algorithm, mode: Algorithm, value: bytes, mine: bytes, rnda: bytes, rndb: bytes)
    requires |value| == |mine| == 24 && |rnda| == |rndb| == RndLen(algo) && Compatible(mode, algo)
    ensures var reader, card := ReaderSession(mode, mine, rnda, rndb), SessionKey(MakeKey(algo, value).algo, rnda, rndb);
      var agree := algo.AES? || algo.TDES3? || TakenSingle(mode, mine) == MakeKey(algo, value).algo.DES?;
      && (Schedule(reader) == Schedule(card) <==> agree || (NoLow(rnda[..4]) == NoLow(rnda[4..8]) && NoLow(rndb[..4]) == NoLow(rndb[4..8])))
      && (reader.data == card.data <==> agree || (rnda[..4] == rnda[4..8] && rndb[..4] == rndb[4..8]))
  {
    hide ClearLow, MakeKey;
    OwnAlgorithm(algo, value);
    if algo.DES? || algo.TDES2? {
      Quarters(rnda[..4], rndb[..4], rnda[4..8], rndb[4..8]);
      QuartersNoLow(rnda[..4], rndb[..4], rnda[4..8], rndb[4..8]);
    }
  }

  lemma OwnAlgorithm(algo: Algorithm, value: bytes)
    requires |value| == 24
    ensures algo.DES? || algo.TDES2? ==> MakeKey(algo, value).algo in {DES, TDES2}
    ensures algo.AES? || algo.TDES3? ==> MakeKey(algo, value).algo == algo
  {
  }

  lemma Quarters(a: bytes, b: bytes, a': bytes, b': bytes)
    requires |a| == |b| == |a'| == |b'| == 4
    ensures (a + b + a' + b')[..8] == a + b
    ensures a + b + (a + b) == a + b + a' + b' <==> a == a' && b == b'
  {
    var l, r := a + b + (a + b), a + b + a' + b';
    assert l[8..12] == a && l[12..] == b && r[8..12] == a' && r[12..] == b';
    if a == a' && b == b' {
      assert l == r;
    }
  }

  lemma QuartersNoLow(a: bytes, b: bytes, a': bytes, b': bytes)
    requires |a| == |b| == |a'| == |b'| == 4
    ensures NoLow(a + b + (a + b)) == NoLow(a + b + a' + b') <==> NoLow(a) == NoLow(a') && NoLow(b) == NoLow(b')
  {
    hide ClearLow;
    assert NoLow(a + b + (a + b)) == NoLow(a) + NoLow(b) + (NoLow(a) + NoLow(b));
    assert NoLow(a + b + a' + b') == NoLow(a) + NoLow(b) + NoLow(a') + NoLow(b');
    Quarters(NoLow(a), NoLow(b), NoLow(a'), NoLow(b'));
  }

  lemma OneLowBit()
    ensures Each(ClearLow, Zeros(8) + [0x01] + Zeros(7)) == Zeros(16)
    ensures Each(ClearLow, Each(ClearLow, Zeros(8)) + Each(ClearLow, Zeros(8))) == Zeros(16)
  {
    LowBitGone();
    var one := Zeros(8) + [0x01] + Zeros(7);
    forall k | 0 <= k < 16 ensures Each(ClearLow, one)[k] == 0 {
      assert one[k] == if k == 8 then 0x01 else 0;
    }
    assert Each(ClearLow, Zeros(8)) == Zeros(8);
    assert Zeros(8) + Zeros(8) == Zeros(16);
  }

  lemma LowBitGone()
    ensures ClearLow(0x00) == ClearLow(0x01) == 0x00
  {
  }

  // A reader whose key has only other low bits than the card's is let in and
  // still ends on another session cipher.
  lemma LowBitsMatter()
    ensures var value, mine := Zeros(24), Zeros(8) + [0x01] + Zeros(15);
      && Schedule(ReaderKey(TDES2, mine)) == Schedule(MakeKey(TDES2, value))
      && var rnda, rndb := [1, 2, 3, 4, 5, 6, 7, 8], Zeros(8);
      Schedule(ReaderSession(TDES2, mine, rnda, rndb)) != Schedule(SessionKey(MakeKey(TDES2, value).algo, rnda, rndb))
  {
    hide ClearLow, Schedule, MakeKey, ReaderKey, ReaderSession, SessionKey;
    var value, mine := Zeros(24), Zeros(8) + [0x01] + Zeros(15);
    OneBitOff(value, mine);
    var rnda: bytes, rndb := [1, 2, 3, 4, 5, 6, 7, 8], Zeros(8);
    OneSessionKey(TDES2, TDES2, value, mine, rnda, rndb);
    OneIsNotFive();
    assert NoLow(rnda[..4])[0] == ClearLow(1) && NoLow(rnda[4..8])[0] == ClearLow(5);
  }

  lemma OneBitOff(value: bytes, mine: bytes)
    requires value == Zeros(24) && mine == Zeros(8) + [0x01] + Zeros(15)
    ensures Schedule(ReaderKey(TDES2, mine)) == Schedule(MakeKey(TDES2, value))
    ensures MakeKey(TDES2, value).algo.DES? && !TakenSingle(TDES2, mine)
  {
    hide ClearLow, SetLow;
    assert value[..8] == value[8..16] == Zeros(8);
    assert mine[..8] == Zeros(8) && mine[8..16][0] == 0x01;
    var k, k' := ReaderKey(TDES2, mine), MakeKey(TDES2, value);
    OneLowBit();
    assert k.data == Zeros(8) + [0x01] + Zeros(7);
    assert k'.data == Each(ClearLow, Zeros(8)) + Each(ClearLow, Zeros(8));
  }

  lemma OneIsNotFive()
    ensures ClearLow(1) != ClearLow(5)
  {
  }

  // ---- the card

  datatype App = App(numkeysraw: nat, keytype: Algorithm)

  const NoKey := Key(DES, Zeros(16))

  class Card {
    const e: Family
    const rndb: array<byte>          // 16 octets, of which rndlen are the nonce
    var rndlen: nat
    var authCmd: byte                // the handshake in flight, 0 when none
    var authKeynum: nat
    var iv: bytes
    var authkey: Key
    var authenticated: bool
    var legacy: bool
    var authKeyno: nat
    var sesskey: Key

    constructor (e: Family)
      ensures this.e == e && fresh(rndb) && rndb.Length == 16 && Cleared()
    {
      this.e := e;
      rndb := new byte[16](_ => 0);
      rndlen, authCmd, authKeynum, iv, authkey := 0, 0, 0, Zeros(16), NoKey;
      authenticated, legacy, authKeyno, sesskey := false, false, 0, NoKey;
    }

    ghost predicate Cleared()
      reads this
    {
      authCmd == 0 && !authenticated && !legacy && authKeyno == 0 && iv == Zeros(16) && authkey == sesskey == NoKey
    }

    // Between the two frames: the challenge over this RndB has gone out.
    ghost predicate InFlight()
      reads this, rndb
    {
      && authCmd in {AUTHENTICATE, AUTHENTICATE_ISO, AUTHENTICATE_AES} && !authenticated
      && (authCmd == AUTHENTICATE ==> CipherOf(e, authkey).kbs == 8)
      && rndlen == RndLen(authkey.algo) <= rndb.Length && Whole(CipherOf(e, authkey).kbs, rndlen)
      && iv == Carry(CipherOf(e, authkey).kbs, Zeros(CipherOf(e, authkey).kbs), Challenge(CipherOf(e, authkey), rndb[..rndlen]))
    }

    // desfire_sim_auth_clear
    method AuthClear()
      modifies this
      ensures Cleared() && authKeynum == old(authKeynum) && rndlen == old(rndlen)
    {
      authCmd, authenticated, legacy, authKeyno := 0, false, false, 0;
      iv, sesskey, authkey := Zeros(16), NoKey, NoKey;
    }

    // Why the first frame is turned away, or 0.
    static function Objection(cmd: byte, params: bytes, app: App, key: Option<bytes>): byte {
      if |params| < 1 then E_LENGTH
      else
        var keyno := (params[0] & 0x0F) as nat;
        if keyno >= app.numkeysraw % 16 && keyno != 0 then E_NO_SUCH_KEY
        else if key.None? then E_AUTHENTICATION_ERROR
        else if !Suits(cmd, app.keytype) then E_AUTHENTICATION_ERROR
        else 0
    }

    // desfire_sim_auth_start: `key` is what the image holds for that key
    // number, `rnd` the nonce drawn.
    method AuthStart(cmd: byte, params: bytes, app: App, key: Option<bytes>, rnd: bytes) returns (out: bytes)
      requires key.Some? ==> |key.value| == 24
      requires |rnd| == RndLen(app.keytype) && rndb.Length == 16
      modifies this, rndb
      ensures var no := Objection(cmd, params, app, key);
        if no != 0 then out == [no] && unchanged(this) && unchanged(rndb)
        else
          && InFlight() && authCmd == cmd && authKeynum == (params[0] & 0x0F) as nat
          && authkey == MakeKey(app.keytype, key.value) && rndb[..rndlen] == rnd
          && out == [ADDITIONAL_FRAME] + Challenge(CipherOf(e, authkey), rnd)
    {
      hide Send, Carry, Whole, Whitened, MakeKey;
      if |params| < 1 {
        return [E_LENGTH];
      }
      var keyno := (params[0] & 0x0F) as nat;
      if keyno >= app.numkeysraw % 16 && keyno != 0 {
        return [E_NO_SUCH_KEY];
      }
      if key.None? {
        return [E_AUTHENTICATION_ERROR];
      }
      if !Suits(cmd, app.keytype) {
        return [E_AUTHENTICATION_ERROR];
      }
      AuthClear();
      authkey, rndlen := MakeKey(app.keytype, key.value), RndLen(app.keytype);
      KindStays(app.keytype, key.value);
      NonceIsWhole(e, authkey, rndlen);
      Copy(rndb, 0, rnd);
      var encrndb, after := EncryptNonce();
      iv := after;
      authCmd, authKeynum := cmd, keyno;
      out := [ADDITIONAL_FRAME] + encrndb;
    }

    // The cipher whitens its input where it stands, so it is given a copy:
    // rndb itself is read in the second frame.
    method EncryptNonce() returns (enc: bytes, after: bytes)
      requires rndlen <= 16 == rndb.Length && Whole(CipherOf(e, authkey).kbs, rndlen)
      ensures enc == Challenge(CipherOf(e, authkey), rndb[..rndlen])
      ensures after == Carry(CipherOf(e, authkey).kbs, Zeros(CipherOf(e, authkey).kbs), enc)
    {
      hide Send, Carry, Whole, Whitened;
      var c := CipherOf(e, authkey);
      var plain, encrndb, ivect := new byte[16](_ => 0), new byte[16](_ => 0), new byte[16](_ => 0);
      Copy(plain, 0, rndb[..rndlen]);
      assert plain[..rndlen] == rndb[..rndlen] && ivect[..c.kbs] == Zeros(c.kbs);
      DesfireSimCrypt(c, plain, encrndb, rndlen, ivect, true);
      enc, after := encrndb[..rndlen], ivect[..c.kbs];
    }

    // What the token opens to, by the command in flight.
    method OpenToken(token: bytes) returns (both: bytes, after: bytes)
      requires InFlight() && Whole(CipherOf(e, authkey).kbs, |token|)
      ensures both == Opened(CipherOf(e, authkey), authCmd == AUTHENTICATE, iv, token)
      ensures after == if authCmd == AUTHENTICATE then Zeros(CipherOf(e, authkey).kbs) else Carry(CipherOf(e, authkey).kbs, iv, token)
    {
      hide Send, Receive, Carry, Whole;
      var c := CipherOf(e, authkey);
      if authCmd == AUTHENTICATE {
        var out := new byte[|token|];
        WholeIsMultiple(8, |token|);
        D40Receive(c, token, out);
        both, after := out[..], Zeros(8);
        assert token[..|token|] == token && out[..|token|] == out[..];
      } else {
        both, after := CryptBytes(c, token, iv, false);
      }
    }

    // desfire_sim_auth_finish
    method AuthFinish(input: bytes) returns (out: bytes)
      requires InFlight()
      modifies this
      ensures match old(Finish(e, authkey, authCmd == AUTHENTICATE, iv, rndb[..rndlen], input))
        case Turned(status) => out == [status] && Cleared()
        case Opens(reply, session) =>
          && out == [OPERATION_OK] + reply && authenticated && sesskey == session
          && legacy == (old(authCmd) == AUTHENTICATE) && authKeyno == old(authKeynum) && authCmd == 0 && iv == Zeros(16)
    {
      hide Send, Receive, Carry, Whole, Opened, SessionKey, Rol, Challenge;
      var want := rndlen * 2;
      if |input| < want {
        AuthClear();
        return [E_LENGTH];
      }
      var c, token := CipherOf(e, authkey), input[..want];
      WholeAdd(c.kbs, rndlen, rndlen);
      var both, after := OpenToken(token);
      var rnda := both[..rndlen];
      if both[rndlen..] != Rol(rndb[..rndlen]) {
        AuthClear();
        return [E_AUTHENTICATION_ERROR];
      }
      var reply, _ := CryptBytes(c, Rol(rnda), after, true);
      out := [OPERATION_OK] + reply;
      sesskey := SessionKey(authkey.algo, rnda, rndb[..rndlen]);
      authenticated, legacy, authKeyno := true, authCmd == AUTHENTICATE, authKeynum;
      authCmd, iv := 0, Zeros(16);
    }
  }

  // Every frame is what the other side's function makes of the one before.
  ghost predicate Exchanged(e: Family, key: Key, legacy: bool, rnd: bytes, rnda: bytes, challenge: bytes, token: bytes, answer: bytes, session: Key) {
    var c := CipherOf(e, key);
    && |rnd| == |rnda| == RndLen(key.algo) && Nonces(c, rnda, rnd)
    && challenge == [ADDITIONAL_FRAME] + Challenge(c, rnd)
    && token == ReaderToken(c, legacy, Challenge(c, rnd), rnda)
    && var v := Finish(e, key, legacy, Carry(c.kbs, Zeros(c.kbs), Challenge(c, rnd)), rnd, token);
    v.Opens? && answer == [OPERATION_OK] + v.reply && session == v.session == SessionKey(key.algo, rnda, rnd)
  }

  // The whole exchange: the card is in a session, the reader has read back its
  // own rotated nonce, and the session keys are as OneSessionKey says.
  method Authenticate(h: Card, cmd: byte, params: bytes, app: App, mode: Algorithm, value: bytes, mine: bytes, rnd: bytes, rnda: bytes)
    returns (challenge: bytes, token: bytes, answer: bytes, recovered: bytes, session: Key)
    requires |value| == |mine| == 24 && |rnd| == |rnda| == RndLen(app.keytype) && h.rndb.Length == 16
    requires Card.Objection(cmd, params, app, Some(value)) == 0
    requires Compatible(mode, app.keytype) && Schedule(ReaderKey(mode, mine)) == Schedule(MakeKey(app.keytype, value))
    modifies h, h.rndb
    ensures Exchanged(h.e, MakeKey(app.keytype, value), cmd == AUTHENTICATE, rnd, rnda, challenge, token, answer, h.sesskey)
    ensures h.authenticated && h.legacy == (cmd == AUTHENTICATE)
    ensures recovered == Rol(rnda) && session == ReaderSession(mode, mine, rnda, rnd)
  {
    hide Send, Receive, Carry, Whole, Opened, SessionKey, Rol, Challenge, ReaderToken, ReaderNonce, ReaderRecovers, ReaderKey, Schedule, MakeKey, ReaderSession;
    var legacy := cmd == AUTHENTICATE;
    var c := CipherOf(h.e, ReaderKey(mode, mine));
    Completes(h.e, app.keytype, mode, legacy, value, mine, rnda, rnd);
    challenge := h.AuthStart(cmd, params, app, Some(value), rnd);
    assert challenge[1..] == Challenge(c, rnd);
    token := ReaderToken(c, legacy, challenge[1..], rnda);
    answer := h.AuthFinish(token);
    recovered := ReaderRecovers(c, legacy, challenge[1..], token, answer[1..]);
    session := ReaderSession(mode, mine, rnda, ReaderNonce(c, challenge[1..]));
  }
}
