/** What the crossed session streams are for: everything sent after an encrypted handshake arrives unchanged. */
module SessionStream {
  import opened Bytes
  import Words
  import opened HandshakeBlock
  import opened Handshake
  import opened HandshakeAgreement

  /** RC4 as an unknown stream: the byte at each position of the stream of each key. */
  type KeyStream = (Bytes, nat) -> byte

  /** `RC4_encrypt`: encryption and decryption are the same exclusive or. */
  function Crypt(ks: KeyStream, r: Rc4, data: Bytes): (out: Bytes)
    ensures |out| == |data|
  {
    seq(|data|, i requires 0 <= i < |data| => Words.XorByte(data[i], ks(r.key, r.used + i)))
  }

  /** A sequence of calls on one stream: each continues where the one before stopped. */
  function CryptAll(ks: KeyStream, r: Rc4, parts: seq<Bytes>): seq<Bytes>
    decreases |parts|
  {
    if parts == [] then []
    else [Crypt(ks, r, parts[0])] + CryptAll(ks, r.Advance(|parts[0]|), parts[1..])
  }

  lemma CryptTwice(ks: KeyStream, r: Rc4, data: Bytes)
    ensures Crypt(ks, r, Crypt(ks, r, data)) == data
  {
    var once := Crypt(ks, r, data);
    forall i | 0 <= i < |data| ensures Crypt(ks, r, once)[i] == data[i] {
      Words.XorTwice(data[i], ks(r.key, r.used + i));
    }
  }

  lemma CryptSplit(ks: KeyStream, r: Rc4, a: Bytes, b: Bytes)
    ensures Crypt(ks, r, a + b) == Crypt(ks, r, a) + Crypt(ks, r.Advance(|a|), b)
  {
    hide Words.XorByte;
  }

  /** How the data is cut into calls makes no difference. */
  lemma {:induction false} CryptAllIsCrypt(ks: KeyStream, r: Rc4, parts: seq<Bytes>)
    ensures Concat(CryptAll(ks, r, parts)) == Crypt(ks, r, Concat(parts))
    decreases |parts|
  {
    hide Crypt;
    if parts == [] {
      assert Crypt(ks, r, []) == [];
    } else {
      CryptAllIsCrypt(ks, r.Advance(|parts[0]|), parts[1..]);
      CryptSplit(ks, r, parts[0], Concat(parts[1..]));
    }
  }

  /** With the streams that an encrypted handshake leaves: whatever one side encrypts, in calls of any sizes, the other
      decrypts from the arriving bytes, in calls of any other sizes. */
  lemma SessionDelivers(q: Pairing, ks: KeyStream, sent: seq<Bytes>, arrived: seq<Bytes>, upward: bool)
    requires q.Valid() && q.c.encrypted
    requires var client, server := Advanced(ClientKeys(q)).value, Advanced(ServerKeys(q)).value;
             Concat(arrived) == Concat(CryptAll(ks, if upward then client.output else server.output, sent))
    ensures var client, server := Advanced(ClientKeys(q)).value, Advanced(ServerKeys(q)).value;
            Concat(CryptAll(ks, if upward then server.input else client.input, arrived)) == Concat(sent)
  {
    hide Crypt, CryptAll, Concat, Upstream, Downstream;
    var client, server := Advanced(ClientKeys(q)).value, Advanced(ServerKeys(q)).value;
    ScriptKeysCross(q);
    var r := if upward then client.output else server.output;
    CryptAllIsCrypt(ks, r, sent);
    CryptAllIsCrypt(ks, r, arrived);
    CryptTwice(ks, r, Concat(sent));
  }
}
