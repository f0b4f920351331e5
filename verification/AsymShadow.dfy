/** Block buffering of the asymmetric-only shadower. The cipher is abstract: each encryption may
    use fresh randomness, ciphertexts have a fixed length, and decryption undoes encryption. */
module AsymShadow {
  import opened Sequences

  type Bytes = seq<nat>

  /** A cipher for blocks of up to `plainLen` bytes, with ciphertexts of `cipherLen` bytes. */
  datatype Cipher = Cipher(plainLen: nat, cipherLen: nat, encrypt: (nat, Bytes) -> Bytes, decrypt: Bytes -> Bytes) {
    ghost predicate Good() {
      && plainLen >= 1 && cipherLen >= 1
      && forall nonce: nat, b: Bytes :: 1 <= |b| <= plainLen ==>
           |encrypt(nonce, b)| == cipherLen && decrypt(encrypt(nonce, b)) == b
    }
  }

  /** `wire` is the concatenation of ciphertexts of the blocks `plain`, none of them empty. */
  ghost predicate Carries(c: Cipher, wire: Bytes, plain: seq<Bytes>)
    decreases |plain|
  {
    if plain == [] then wire == []
    else
      && |wire| >= c.cipherLen && 1 <= |plain[0]| <= c.plainLen && c.decrypt(wire[..c.cipherLen]) == plain[0]
      && Carries(c, wire[c.cipherLen..], plain[1..])
  }

  lemma {:induction false} CarriesSnoc(c: Cipher, wire: Bytes, plain: seq<Bytes>, nonce: nat, block: Bytes)
    requires c.Good() && Carries(c, wire, plain) && 1 <= |block| <= c.plainLen
    ensures Carries(c, wire + c.encrypt(nonce, block), plain + [block])
    decreases |plain|
  {
    var more := c.encrypt(nonce, block);
    if plain == [] {
      assert wire + more == more && plain + [block] == [block];
      assert more[..c.cipherLen] == more && more[c.cipherLen..] == [];
    } else {
      CarriesSnoc(c, wire[c.cipherLen..], plain[1..], nonce, block);
      assert (wire + more)[..c.cipherLen] == wire[..c.cipherLen];
      assert (wire + more)[c.cipherLen..] == wire[c.cipherLen..] + more;
      assert (plain + [block])[1..] == plain[1..] + [block];
    }
  }

  /** The bytes cut into blocks of `n`, the last one possibly shorter. */
  function Blocks(data: Bytes, n: nat): seq<Bytes>
    requires n >= 1
    decreases |data|
  {
    if data == [] then [] else if |data| <= n then [data] else [data[..n]] + Blocks(data[n..], n)
  }

  /** They are the bytes, cut so that every block but the last is full and none is empty. */
  lemma {:induction false} BlocksMeaning(data: Bytes, n: nat)
    requires n >= 1
    ensures var blocks := Blocks(data, n);
            && Flat(blocks) == data && (forall i :: 0 <= i < |blocks| - 1 ==> |blocks[i]| == n)
            && (blocks != [] ==> 1 <= |blocks[|blocks| - 1]| <= n)
    decreases |data|
  {
    if |data| > n {
      BlocksMeaning(data[n..], n);
      assert Blocks(data, n)[1..] == Blocks(data[n..], n);
    } else if data != [] {
      assert Blocks(data, n)[1..] == [];
    }
  }

  ghost predicate AllFull(blocks: seq<Bytes>, n: nat) {
    forall i :: 0 <= i < |blocks| ==> |blocks[i]| == n
  }

  /** Full blocks and a shorter rest are the blocks of the whole. */
  lemma {:induction false} FullBlocksThenRest(blocks: seq<Bytes>, rest: Bytes, n: nat)
    requires n >= 1 && AllFull(blocks, n) && |rest| <= n
    ensures Blocks(Flat(blocks) + rest, n) == blocks + if rest == [] then [] else [rest]
  {
    var all := Flat(blocks) + rest;
    if blocks == [] {
      assert all == rest;
    } else {
      FullBlocksThenRest(blocks[1..], rest, n);
      assert all == blocks[0] + (Flat(blocks[1..]) + rest);
      assert all[..n] == blocks[0] && all[n..] == Flat(blocks[1..]) + rest;
      if |all| == n {
        assert all[n..] == [] && blocks[1..] + (if rest == [] then [] else [rest]) == [];
        assert all[..n] == all;
      }
      assert blocks == [blocks[0]] + blocks[1..];
    }
  }

  /** Copy `part` into the buffer, right after its first `at` bytes. */
  method CopyAt(buf: array<nat>, at: nat, part: Bytes)
    requires at + |part| <= buf.Length
    modifies buf
    ensures buf[..at + |part|] == old(buf[..at]) + part
  {
    var i := 0;
    while i < |part|
      invariant i <= |part| && buf[..at] == old(buf[..at]) && buf[at..at + i] == part[..i]
    {
      buf[at + i] := part[i];
      i := i + 1;
    }
    assert buf[..at + |part|] == buf[..at] + buf[at..at + |part|];
  }

  // ----- Writing -----

  class Writer {
    const cipher: Cipher
    /** The plaintext buffer and how much of it is used. */
    const bdec: array<nat>
    var decixend: nat
    /** Everything written to the underlying stream. */
    var wire: Bytes
    ghost var plain: seq<Bytes>
    ghost var accepted: Bytes

    ghost predicate Valid()
      reads this, bdec
    {
      && cipher.Good() && bdec.Length == cipher.plainLen && decixend <= bdec.Length
      && Carries(cipher, wire, plain)
      && accepted == Flat(plain) + bdec[..decixend]
    }

    /** Only full blocks were sent so far. */
    ghost predicate Open()
      reads this
    {
      AllFull(plain, cipher.plainLen)
    }

    constructor (c: Cipher)
      requires c.Good()
      ensures Valid() && Open() && fresh(bdec) && cipher == c && accepted == [] && wire == [] && decixend == 0
    {
      cipher := c;
      bdec := new nat[c.plainLen];
      decixend, wire, plain, accepted := 0, [], [], [];
    }

    /** Encrypt what is buffered and send it. */
    method Emit(nonce: nat)
      requires Valid() && decixend > 0
      modifies this`decixend, this`wire, this`plain
      ensures Valid() && decixend == 0 && plain == old(plain) + [old(bdec[..decixend])]
    {
      ghost var block := bdec[..decixend];
      CarriesSnoc(cipher, wire, plain, nonce, block);
      FlatSnoc(plain, block);
      wire := wire + cipher.encrypt(nonce, bdec[..decixend]);
      plain := plain + [block];
      decixend := 0;
    }

    /** Only a full buffer is sent. */
    method FlushInto(nonce: nat)
      requires Valid()
      modifies this`decixend, this`wire, this`plain
      ensures Valid() && decixend < bdec.Length
      ensures old(decixend) < bdec.Length ==> decixend == old(decixend) && wire == old(wire) && plain == old(plain)
      ensures old(decixend) == bdec.Length ==> decixend == 0 && plain == old(plain) + [old(bdec[..])]
      ensures old(Open()) ==> Open()
    {
      if decixend == bdec.Length {
        assert bdec[..decixend] == bdec[..];
        Emit(nonce);
      }
    }

    /** Accept a prefix of `cont`, as long as the buffer has room, and never nothing of something. */
    method WriteInto(cont: Bytes, nonce: nat) returns (n: nat)
      requires Valid()
      modifies this, bdec
      ensures Valid() && n <= |cont| && accepted == old(accepted) + cont[..n]
      ensures n == Min(|cont|, bdec.Length - if old(decixend) == bdec.Length then 0 else old(decixend))
      ensures cont != [] ==> n > 0
      ensures old(Open()) ==> Open()
    {
      FlushInto(nonce);
      n := Min(bdec.Length - decixend, |cont|);
      ghost var kept := bdec[..decixend];
      CopyAt(bdec, decixend, cont[..n]);
      decixend := decixend + n;
      accepted := accepted + cont[..n];
      assert Flat(plain) + (kept + cont[..n]) == Flat(plain) + kept + cont[..n];
    }

    /** Send everything that is still buffered. */
    method WriteEnd(nonce: nat)
      requires Valid()
      modifies this
      ensures Valid() && decixend == 0 && accepted == old(accepted) == Flat(plain)
      ensures old(Open()) ==> plain == Blocks(accepted, cipher.plainLen)
    {
      FlushInto(nonce);
      if Open() {
        FullBlocksThenRest(plain, bdec[..decixend], cipher.plainLen);
      }
      if decixend != 0 {
        Emit(nonce);
      }
      assert bdec[..0] == [];
    }
  }

  // ----- Reading -----

  /** The underlying stream. A read may be short, but returns nothing only at the end. */
  class Source {
    var data: Bytes

    constructor (d: Bytes)
      ensures data == d
    {
      data := d;
    }

    method Read(max: nat) returns (got: Bytes)
      modifies this
      ensures |got| <= max && old(data) == got + data
      ensures got == [] <==> max == 0 || old(data) == []
    {
      if max == 0 || data == [] {
        return [];
      }
      var most := Min(max, |data|);
      var s: nat :| 1 <= s <= most;
      got, data := data[..s], data[s..];
    }
  }

  class Reader {
    const cipher: Cipher
    const benc: array<nat>
    /** The decrypted block and the part of it that was not returned yet. */
    var bdec: Bytes
    var decixstart: nat
    var decixend: nat
    const src: Source
    /** The blocks that the stream still carries. */
    ghost var plain: seq<Bytes>

    ghost predicate Valid()
      reads this, src
    {
      && cipher.Good() && benc.Length == cipher.cipherLen
      && decixstart <= decixend <= |bdec| && Carries(cipher, src.data, plain)
    }

    /** The bytes that are still to be read. */
    ghost function Rest(): Bytes
      reads this
      requires decixstart <= decixend <= |bdec|
    {
      bdec[decixstart..decixend] + Flat(plain)
    }

    /** How many bytes there are without reading another block: what is left of the current one, or the next. */
    ghost function NextSize(): nat
      reads this
    {
      if decixstart < decixend then decixend - decixstart else if plain == [] then 0 else |plain[0]|
    }

    constructor (c: Cipher, s: Source, ghost p: seq<Bytes>)
      requires c.Good() && Carries(c, s.data, p)
      ensures Valid() && fresh(benc) && src == s && Rest() == Flat(p)
    {
      cipher, src, plain := c, s, p;
      benc := new nat[c.cipherLen];
      bdec, decixstart, decixend := [], 0, 0;
    }

    /** Fill the ciphertext buffer, however short the reads are: a whole ciphertext, or nothing at
        the end of the stream. */
    method Fill() returns (encix: nat)
      requires Valid()
      modifies src, benc
      ensures encix <= benc.Length && old(src.data) == benc[..encix] + src.data
      ensures encix == benc.Length || src.data == []
    {
      hide Carries;
      encix := 0;
      ghost var all := src.data;
      var more := true;
      while more
        invariant encix <= benc.Length && all == benc[..encix] + src.data
        invariant !more ==> encix == benc.Length || src.data == []
        modifies src, benc
        decreases more, |src.data|
      {
        ghost var had := benc[..encix];
        var got := src.Read(benc.Length - encix);
        assert all == had + got + src.data;
        CopyAt(benc, encix, got);
        encix := encix + |got|;
        more := |got| != 0;
      }
    }

    /** Decrypt the next block, if the last one is used up and there is one. */
    method Produce()
      requires Valid() && decixstart == decixend
      modifies this, src, benc
      ensures Valid() && Rest() == old(Rest())
      ensures decixstart < decixend || Rest() == []
      ensures decixend - decixstart == old(NextSize())
    {
      ghost var wire, blocks := src.data, plain;
      decixstart, decixend := 0, 0;
      var encix := Fill();
      Refill(cipher, wire, benc[..encix], src.data, blocks);
      if encix != 0 {
        bdec := cipher.decrypt(benc[..encix]);
        decixend := |bdec|;
        plain := blocks[1..];
        assert bdec[0..|bdec|] == bdec;
      }
    }

    /** Up to `bufLen` of the bytes still to be read, in order; nothing only at the very end. */
    method ReadFrom(bufLen: nat) returns (r: Bytes)
      requires Valid()
      modifies this, src, benc
      ensures Valid() && |r| <= bufLen
      ensures old(Rest()) == r + Rest()
      ensures |r| == Min(bufLen, old(NextSize()))
      ensures r == [] <==> bufLen == 0 || old(Rest()) == []
    {
      if decixend == decixstart {
        Produce();
        if decixend == 0 {
          return [];
        }
      }
      hide Carries, Flat;
      var tocopy := Min(bufLen, decixend - decixstart);
      CutRest(bdec, decixstart, decixstart + tocopy, decixend, Flat(plain));
      r := bdec[decixstart..decixstart + tocopy];
      decixstart := decixstart + tocopy;
    }
  }

  lemma CutRest(b: Bytes, from: nat, mid: nat, to: nat, tail: Bytes)
    requires from <= mid <= to <= |b|
    ensures b[from..to] + tail == b[from..mid] + (b[mid..to] + tail)
  {
  }

  /** One block taken off the wire. */
  lemma Refill(c: Cipher, wire: Bytes, head: Bytes, tail: Bytes, plain: seq<Bytes>)
    requires c.Good() && Carries(c, wire, plain) && wire == head + tail && |head| <= c.cipherLen
    requires |head| == c.cipherLen || tail == []
    ensures head == [] <==> plain == []
    ensures head != [] ==> |c.decrypt(head)| >= 1 && c.decrypt(head) == plain[0] && Carries(c, tail, plain[1..])
  {
    if plain != [] {
      assert wire[..c.cipherLen] == head && wire[c.cipherLen..] == tail;
    }
  }

  // ----- The round trip -----

  /** Write the chunks, each with as many calls as it takes, and end the stream. What is encrypted
      depends on the bytes alone, not on how they were cut into chunks. */
  method SendAll(c: Cipher, chunks: seq<Bytes>, nonces: nat -> nat) returns (wire: Bytes, ghost plain: seq<Bytes>)
    requires c.Good()
    ensures Carries(c, wire, plain) && Flat(plain) == Flat(chunks) && plain == Blocks(Flat(chunks), c.plainLen)
  {
    hide Carries;
    var w := new Writer(c);
    var calls := 0;
    for i := 0 to |chunks|
      invariant fresh(w) && fresh(w.bdec) && w.Valid() && w.Open() && w.cipher == c && w.accepted == Flat(chunks[..i])
    {
      var left := chunks[i];
      ghost var start := w.accepted;
      while left != []
        invariant fresh(w) && fresh(w.bdec) && w.Valid() && w.Open() && w.cipher == c
        invariant w.accepted + left == start + chunks[i]
        decreases |left|
      {
        var n := w.WriteInto(left, nonces(calls));
        calls := calls + 1;
        left := left[n..];
      }
      assert chunks[..i + 1] == chunks[..i] + [chunks[i]];
      FlatSnoc(chunks[..i], chunks[i]);
    }
    assert chunks[..|chunks|] == chunks;
    w.WriteEnd(nonces(calls));
    wire, plain := w.wire, w.plain;
  }

  /** Whatever way the bytes are cut into writes, whatever the sizes of the read buffers and
      however short the reads of the underlying stream, what comes back is what was written, and
      then the stream is at its end. */
  method RoundTrip(c: Cipher, chunks: seq<Bytes>, nonces: nat -> nat, sizes: nat -> nat) returns (got: Bytes)
    requires c.Good() && forall i: nat :: sizes(i) >= 1
    ensures got == Flat(chunks)
  {
    hide Carries, Flat, Reader.NextSize;
    var wire, plain := SendAll(c, chunks, nonces);
    var src := new Source(wire);
    var reader := new Reader(c, src, plain);
    got := [];
    var calls, more := 0, true;
    while more
      invariant fresh(reader) && fresh(reader.src) && fresh(reader.benc) && reader.Valid()
      invariant got + reader.Rest() == Flat(chunks)
      invariant !more ==> reader.Rest() == []
      decreases more, |reader.Rest()|
    {
      ghost var rest := reader.Rest();
      var part := reader.ReadFrom(sizes(calls));
      Associative(got, part, reader.Rest());
      assert rest == part + reader.Rest();
      calls := calls + 1;
      got := got + part;
      more := part != [];
    }
  }
}
