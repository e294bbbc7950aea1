/**
 The identifiers of requests to the search service
 (lib/src/oef_search_client.cpp, `generate_smsg_id_`, `generate_header_` and the start of
 `process_message_`).
 */
module MessageIds {

  /** The conversion of a 64-bit number to `uint32_t`. */
  function Low(x: bv64): bv32 {
    (x & 0xFFFF_FFFF) as bv32
  }

  function Twice(m: bv32): bv32 { m << 1 }
  function Half(m: bv32): bv32 { m >> 1 }
  function Low31(m: bv32): bv32 { m & 0x7FFF_FFFF }
  function Xor(a: bv32, b: bv32): bv32 { a ^ b }

  /** `generate_smsg_id_`, narrowed to the 32-bit keys of the table of handles. */
  function TableId(hash: bv64, msgId: bv32): bv32 {
    Low(hash ^ (Twice(msgId) as bv64))
  }

  /** The id in the header of a request: one more, in 32 bits. */
  function HeaderId(key: bv32): bv64 {
    (key + 1) as bv64
  }

  /** The table key a response is looked up under: one less, in 64 bits, then the low 32. */
  function ResponseKey(headerId: bv64): bv32 {
    Low(headerId - 1)
  }

  /** Adding the one and taking it away cancel, also where they wrap around. */
  lemma KeyRoundTrip(key: bv32)
    ensures ResponseKey(HeaderId(key)) == key
  {
  }

  /** On the wire the id has nothing above its low 32 bits, and those are one more than the key. */
  lemma HeaderIdIsNarrow(key: bv32)
    ensures HeaderId(key) <= 0xFFFF_FFFF && Low(HeaderId(key)) == key + 1
  {
  }

  lemma LowXor(x: bv64, y: bv64)
    ensures Low(x ^ y) == Xor(Low(x), Low(y))
  {
  }

  lemma LowWide(x: bv32)
    ensures Low(x as bv64) == x
  {
  }

  /** The key is the low half of the agent's hash, xor twice the message id. */
  lemma TableIdParts(hash: bv64, m: bv32)
    ensures TableId(hash, m) == Xor(Low(hash), Twice(m))
  {
    LowXor(hash, Twice(m) as bv64);
    LowWide(Twice(m));
    hide Low, Twice, Xor;
  }

  lemma XorCancels(h: bv32, x: bv32, y: bv32)
    ensures Xor(h, x) == Xor(h, y) <==> x == y
  {
  }

  lemma XorSwap(a: bv32, b: bv32)
    ensures Xor(a, b) == Xor(b, a)
  {
  }

  lemma XorTwice(a: bv32, b: bv32)
    ensures Xor(a, Xor(a, b)) == b
  {
  }

  lemma XorAssociates(a: bv32, b: bv32, c: bv32)
    ensures Xor(a, Xor(b, c)) == Xor(Xor(a, b), c)
  {
  }

  lemma XorMove(a: bv32, x: bv32, b: bv32, y: bv32)
    requires Xor(a, x) == Xor(b, y)
    ensures Xor(a, b) == Xor(x, y)
  {
    hide *;
    calc {
      Xor(a, b);
      { XorTwice(x, b); }
      Xor(a, Xor(x, Xor(x, b)));
      { XorAssociates(a, x, Xor(x, b)); }
      Xor(Xor(b, y), Xor(x, b));
      { XorSwap(b, y); XorSwap(x, b); }
      Xor(Xor(y, b), Xor(b, x));
      { XorAssociates(y, b, Xor(b, x)); XorTwice(b, x); }
      Xor(y, x);
      { XorSwap(y, x); }
      Xor(x, y);
    }
  }

  lemma XorMoves(a: bv32, b: bv32, x: bv32, y: bv32)
    ensures Xor(a, x) == Xor(b, y) <==> Xor(a, b) == Xor(x, y)
  {
    hide *;
    if Xor(a, x) == Xor(b, y) { XorMove(a, x, b, y); }
    if Xor(a, b) == Xor(x, y) { XorMove(a, b, x, y); }
  }

  lemma TwiceXor(m: bv32, n: bv32)
    ensures Xor(Twice(m), Twice(n)) == Twice(Xor(m, n))
  {
  }

  lemma HalfTwice(m: bv32)
    ensures Half(Twice(m)) == Low31(m) && Twice(Low31(m)) == Twice(m)
  {
  }

  lemma SmallIsItself(m: bv32)
    requires m < 0x8000_0000
    ensures Low31(m) == m
  {
  }

  /** Two messages of one agent share a key exactly when they agree in the low 31 bits. */
  lemma OneAgentCollides(hash: bv64, m: bv32, n: bv32)
    ensures TableId(hash, m) == TableId(hash, n) <==> Low31(m) == Low31(n)
  {
    hide *;
    TableIdParts(hash, m);
    TableIdParts(hash, n);
    XorCancels(Low(hash), Twice(m), Twice(n));
    HalfTwice(m);
    HalfTwice(n);
  }

  /** So distinct ids below 2^31 never collide. */
  lemma SmallIdsDiffer(hash: bv64, m: bv32, n: bv32)
    requires m < 0x8000_0000 && n < 0x8000_0000 && m != n
    ensures TableId(hash, m) != TableId(hash, n)
  {
    OneAgentCollides(hash, m, n);
    SmallIsItself(m);
    SmallIsItself(n);
    hide *;
  }

  /** Two agents' messages share a key exactly when the message ids make up for the hashes. */
  lemma TwoAgentsCollide(hash: bv64, other: bv64, m: bv32, n: bv32)
    ensures TableId(hash, m) == TableId(other, n)
            <==> Xor(Low(hash), Low(other)) == Twice(Xor(m, n))
  {
    hide *;
    TableIdParts(hash, m);
    TableIdParts(other, n);
    XorMoves(Low(hash), Low(other), Twice(m), Twice(n));
    TwiceXor(m, n);
  }
}
