/** The loop body of _write_addresses in rfc5444_msg_generator.c. */
module AddressBlockWriter {
  import opened Basics
  import opened Bytes
  import opened AddressTlvs
  import opened AddressBlocks

  /** How many of the last max bytes two addresses share, from the end. */
  method SharedTail(a: seq<Byte>, b: seq<Byte>, max: nat) returns (t: nat)
    requires |a| == |b| && max <= |a|
    ensures t <= max && a[|a| - t..] == b[|b| - t..]
    ensures t < max ==> a[|a| - t - 1] != b[|b| - t - 1]
  {
    t := 0;
    while t < max
      invariant t <= max && a[|a| - t..] == b[|b| - t..]
    {
      if a[|a| - t - 1] != b[|b| - t - 1] {
        return;
      }
      t := t + 1;
    }
  }

  lemma {:induction false} CommonTailIs(block: seq<Address>, len: nat, max: nat, t: nat)
    requires SameLength(block, len) && t <= max <= len && ShareTail(block, len, t)
    requires t < max ==> exists a :: a in block && a.bytes[len - t - 1] != block[0].bytes[len - t - 1]
    ensures CommonTail(block, len, max) == t
  {
    if t < max {
      var a :| a in block && a.bytes[len - t - 1] != block[0].bytes[len - t - 1];
      assert a.bytes[len - max..][max - t - 1] != block[0].bytes[len - max..][max - t - 1];
      CommonTailIs(block, len, max - 1, t);
    }
  }

  ghost predicate SharedUpTo(block: seq<Address>, len: nat, k: nat, t: nat)
    requires SameLength(block, len) && k <= |block| && t <= len
  {
    forall i :: 0 <= i < k ==> block[i].bytes[len - t..] == block[0].bytes[len - t..]
  }

  /** The tail length of a block. */
  method CalcTail(block: seq<Address>, len: nat, head: nat) returns (t: nat)
    requires SameLength(block, len) && head < len
    ensures t == TailLength(block, len, head)
  {
    hide CommonTail, ShareTail, SharedUpTo;
    if |block| == 1 {
      return 0;
    }
    var max := len - head - 1;
    t := max;
    var k := 0;
    ghost var other := block[0];
    NoneShared(block, len, t);
    while k < |block| && t > 0
      invariant 0 <= k <= |block| && t <= max && SharedUpTo(block, len, k, t)
      invariant other in block && (t < max ==> other.bytes[len - t - 1] != block[0].bytes[len - t - 1])
      decreases |block| - k
    {
      ghost var before := t;
      t := SharedTail(block[0].bytes, block[k].bytes, t);
      if t < before {
        other := block[k];
      }
      StillShares(block, len, k, before, t);
      k := k + 1;
    }
    AllShared(block, len, k, t);
    CommonTailIs(block, len, max, t);
  }

  lemma NoneShared(block: seq<Address>, len: nat, t: nat)
    requires SameLength(block, len) && t <= len
    ensures SharedUpTo(block, len, 0, t)
  {
  }

  lemma AllShared(block: seq<Address>, len: nat, k: nat, t: nat)
    requires SameLength(block, len) && k <= |block| && t <= len && SharedUpTo(block, len, k, t)
      && (k == |block| || t == 0)
    ensures ShareTail(block, len, t)
  {
  }

  lemma StillShares(block: seq<Address>, len: nat, k: nat, t: nat, u: nat)
    requires SameLength(block, len) && k < |block| && u <= t <= len && SharedUpTo(block, len, k, t)
    requires block[k].bytes[len - u..] == block[0].bytes[len - u..]
    ensures SharedUpTo(block, len, k + 1, u)
  {
    forall i | 0 <= i < k ensures block[i].bytes[len - u..] == block[0].bytes[len - u..] {
      Shorter(block[i].bytes, block[0].bytes, len, t, u);
    }
  }

  lemma Shorter(a: seq<Byte>, b: seq<Byte>, len: nat, t: nat, u: nat)
    requires |a| == |b| == len && u <= t <= len && a[len - t..] == b[len - t..]
    ensures a[len - u..] == b[len - u..]
  {
    assert a[len - u..] == a[len - t..][t - u..];
    assert b[len - u..] == b[len - t..][t - u..];
  }

  /** zero_tail */
  method IsZeroTail(a: seq<Byte>, t: nat) returns (zero: bool)
    requires t <= |a|
    ensures zero == (t > 0 && Zeros(a[|a| - t..]))
  {
    zero := t > 0;
    var k := 0;
    while zero && k < t
      invariant k <= t
      invariant zero <==> t > 0 && forall i :: |a| - k <= i < |a| ==> a[i] == 0
      decreases t - k
    {
      if a[|a| - k - 1] != 0 {
        zero := false;
      }
      k := k + 1;
    }
    assert forall i :: |a| - t <= i < |a| ==> a[i] == a[|a| - t..][i - (|a| - t)];
  }

  lemma {:induction false} MidsPrefix(block: seq<Address>, i: nat, j: nat, k: nat)
    requires i <= j && k <= |block| && forall a :: a in block ==> j <= |a.bytes|
    ensures |Mids(block[..k], i, j)| <= |Mids(block, i, j)|
  {
    MulMono(k, |block|, j - i);
  }

  /** The mid parts of the addresses. */
  method WriteMids(buf: array<Byte>, at: nat, block: seq<Address>, i: nat, j: nat, ghost was: seq<Byte>,
                   ghost start: nat, ghost out: seq<Byte>)
    returns (next: nat)
    requires i <= j && forall a :: a in block ==> j <= |a.bytes|
    requires Output(buf[..], was, start, at, out) && at + |Mids(block, i, j)| <= buf.Length
    modifies buf
    ensures next == at + |Mids(block, i, j)| && Output(buf[..], was, start, next, out + Mids(block, i, j))
  {
    hide Output;
    next := at;
    assert out + Mids(block[..0], i, j) == out;
    for k := 0 to |block|
      invariant next == at + |Mids(block[..k], i, j)| && Output(buf[..], was, start, next, out + Mids(block[..k], i, j))
    {
      assert block[..k + 1][..k] == block[..k];
      MidsPrefix(block, i, j, k + 1);
      next := Put(buf, next, block[k].bytes[i..j], was, start, out + Mids(block[..k], i, j));
      assert out + Mids(block[..k], i, j) + block[k].bytes[i..j] == out + Mids(block[..k + 1], i, j);
    }
    assert block[..|block|] == block;
  }

  /** One prefix length for every address. */
  method WritePlens(buf: array<Byte>, at: nat, block: seq<Address>, ghost was: seq<Byte>, ghost start: nat,
                    ghost out: seq<Byte>)
    returns (next: nat)
    requires Output(buf[..], was, start, at, out) && at + |block| <= buf.Length
    modifies buf
    ensures next == at + |block| && Output(buf[..], was, start, next, out + Plens(block))
  {
    hide Output;
    next := at;
    assert out + Plens(block)[..0] == out;
    for k := 0 to |block|
      invariant next == at + k && Output(buf[..], was, start, next, out + Plens(block)[..k])
    {
      next := Put(buf, next, [block[k].plen], was, start, out + Plens(block)[..k]);
      assert out + Plens(block)[..k] + [block[k].plen] == out + Plens(block)[..k + 1];
    }
    assert Plens(block)[..|block|] == Plens(block);
  }

  /** The head: its length and its bytes. */
  method WriteHead(buf: array<Byte>, at: nat, flag: nat, a: Address, h: nat,
                   ghost was: seq<Byte>, ghost start: nat, ghost front: seq<Byte>)
    returns (next: nat)
    requires h <= |a.bytes| && h < 256 && flag == start + |front|
    requires Output(buf[..], was, start, at, front + [0]) && at + |HeadBytes(a, h)| <= buf.Length
    modifies buf
    ensures next == at + |HeadBytes(a, h)|
    ensures Output(buf[..], was, start, next, front + [AddrBits(h > 0, false, false, false, false)] + HeadBytes(a, h))
  {
    hide Output;
    next := at;
    assert front + [0] + [] == front + [0];
    if h > 0 {
      PatchFlag(buf, flag, ADDR_HEAD, was, start, at, front, 0, []);
      next := Put(buf, next, [h], was, start, front + [0x80] + []);
      next := Put(buf, next, a.bytes[..h], was, start, front + [0x80] + [] + [h]);
      assert front + [0x80] + [] + [h] + a.bytes[..h] == front + [0x80] + HeadBytes(a, h);
    }
  }

  /** The tail: its length, and its bytes unless they are zero. */
  method WriteTail(buf: array<Byte>, at: nat, flag: nat, a: Address, t: nat, zero: bool,
                   ghost was: seq<Byte>, ghost start: nat, ghost front: seq<Byte>, ghost h: bool, ghost rest: seq<Byte>)
    returns (next: nat)
    requires t <= |a.bytes| && t < 256 && flag == start + |front| && zero == (t > 0 && Zeros(a.bytes[|a.bytes| - t..]))
    requires Output(buf[..], was, start, at, front + [AddrBits(h, false, false, false, false)] + rest)
    requires at + |TailBytes(a, t)| <= buf.Length
    modifies buf
    ensures next == at + |TailBytes(a, t)|
    ensures Output(buf[..], was, start, next,
      front + [AddrBits(h, t > 0 && !zero, t > 0 && zero, false, false)] + (rest + TailBytes(a, t)))
  {
    hide Output, AddrBits, HasFlag, SetFlag, Zeros;
    AddrBitsSet(h, false, false);
    next := at;
    if t > 0 {
      ghost var f := AddrBits(h, false, false, false, false);
      next := Put(buf, next, [t], was, start, front + [f] + rest);
      assert front + [f] + rest + [t] == front + [f] + (rest + [t]);
      if zero {
        PatchFlag(buf, flag, ADDR_ZEROTAIL, was, start, next, front, f, rest + [t]);
      } else {
        ghost var g := AddrBits(h, true, false, false, false);
        PatchFlag(buf, flag, ADDR_FULLTAIL, was, start, next, front, f, rest + [t]);
        next := Put(buf, next, a.bytes[|a.bytes| - t..], was, start, front + [g] + (rest + [t]));
        assert front + [g] + (rest + [t]) + a.bytes[|a.bytes| - t..] == front + [g] + (rest + TailBytes(a, t));
      }
    } else {
      assert rest + [] == rest;
    }
  }

  lemma AddrBitsSet(h: bool, f: bool, z: bool)
    ensures SetFlag(AddrBits(h, false, false, false, false), ADDR_ZEROTAIL) == AddrBits(h, false, true, false, false)
    ensures SetFlag(AddrBits(h, false, false, false, false), ADDR_FULLTAIL) == AddrBits(h, true, false, false, false)
    ensures SetFlag(AddrBits(h, f, z, false, false), ADDR_SINGLEPLEN) == AddrBits(h, f, z, true, false)
    ensures SetFlag(AddrBits(h, f, z, false, false), ADDR_MULTIPLEN) == AddrBits(h, f, z, false, true)
  {
    hide HasFlag;
    AddrBitsRead(h, false, false, false, false);
    AddrBitsRead(h, f, z, false, false);
  }

  /** The prefix lengths. */
  method WritePrefixes(buf: array<Byte>, at: nat, flag: nat, block: seq<Address>, len: nat, multi: bool,
                       ghost was: seq<Byte>, ghost start: nat, ghost front: seq<Byte>, ghost h: bool, ghost f: bool,
                       ghost z: bool, ghost rest: seq<Byte>)
    returns (next: nat)
    requires block != [] && flag == start + |front|
    requires Output(buf[..], was, start, at, front + [AddrBits(h, f, z, false, false)] + rest)
    requires at + |PrefixBytes(block, len, multi)| <= buf.Length
    modifies buf
    ensures next == at + |PrefixBytes(block, len, multi)|
    ensures Output(buf[..], was, start, next,
      front + [AddrBits(h, f, z, !multi && block[0].plen != len * 8, multi)] + (rest + PrefixBytes(block, len, multi)))
  {
    hide Output, AddrBits, HasFlag, SetFlag;
    AddrBitsSet(h, f, z);
    ghost var b := AddrBits(h, f, z, false, false);
    next := at;
    if multi {
      PatchFlag(buf, flag, ADDR_MULTIPLEN, was, start, next, front, b, rest);
      ghost var c := AddrBits(h, f, z, false, true);
      next := WritePlens(buf, next, block, was, start, front + [c] + rest);
      assert front + [c] + rest + Plens(block) == front + [c] + (rest + Plens(block));
    } else if block[0].plen != len * 8 {
      PatchFlag(buf, flag, ADDR_SINGLEPLEN, was, start, next, front, b, rest);
      ghost var c := AddrBits(h, f, z, true, false);
      next := Put(buf, next, [block[0].plen], was, start, front + [c] + rest);
      assert front + [c] + rest + [block[0].plen] == front + [c] + (rest + [block[0].plen]);
    } else {
      assert rest + [] == rest;
    }
  }

  /** The fields in front of the mid parts. */
  method WriteEnds(buf: array<Byte>, at: nat, n: Byte, a: Address, h: nat, t: nat, zero: bool,
                   ghost was: seq<Byte>, ghost start: nat, ghost out: seq<Byte>)
    returns (next: nat, flag: nat)
    requires h + t <= |a.bytes| < 256 && zero == (t > 0 && Zeros(a.bytes[|a.bytes| - t..]))
    requires Output(buf[..], was, start, at, out) && at + 2 + |HeadBytes(a, h)| + |TailBytes(a, t)| <= buf.Length
    modifies buf
    ensures flag == start + |out + [n]| && next == at + 2 + |HeadBytes(a, h)| + |TailBytes(a, t)|
    ensures Output(buf[..], was, start, next,
      out + [n] + [AddrBits(h > 0, t > 0 && !zero, t > 0 && zero, false, false)] + (HeadBytes(a, h) + TailBytes(a, t)))
  {
    hide Output, AddrBits, HeadBytes, TailBytes, Zeros;
    OutputIs(buf[..], was, start, at, out);
    next := Put(buf, at, [n], was, start, out);
    flag := next;
    next := Put(buf, next, [0], was, start, out + [n]);
    next := WriteHead(buf, next, flag, a, h, was, start, out + [n]);
    next := WriteTail(buf, next, flag, a, t, zero, was, start, out + [n], h > 0, HeadBytes(a, h));
  }

  lemma BlockSize(block: seq<Address>, len: nat, head: nat, multi: bool)
    requires SameLength(block, len) && |block| <= 255 && head < len <= MAX_ADDRLEN
    ensures var h, t := HeadLength(block, head), TailLength(block, len, head);
      |AddrBlockBytes(block, len, head, multi)| == 2 + |HeadBytes(block[0], h)| + |TailBytes(block[0], t)|
        + |Mids(block, h, len - t)| + |PrefixBytes(block, len, multi)|
  {
    hide BlockFlags, HeadBytes, TailBytes, Mids, PrefixBytes, TailLength;
  }

  /** The addresses of a block, in the loop body of _write_addresses. */
  method WriteAddrBlock(buf: array<Byte>, at: nat, block: seq<Address>, len: nat, head: nat, multi: bool,
                        ghost was: seq<Byte>, ghost start: nat, ghost out: seq<Byte>)
    returns (next: nat)
    requires SameLength(block, len) && |block| <= 255 && head < len <= MAX_ADDRLEN
    requires Output(buf[..], was, start, at, out) && at + |AddrBlockBytes(block, len, head, multi)| <= buf.Length
    modifies buf
    ensures next == at + |AddrBlockBytes(block, len, head, multi)|
    ensures Output(buf[..], was, start, next, out + AddrBlockBytes(block, len, head, multi))
  {
    hide Output, AddrBits, HeadBytes, TailBytes, Mids, PrefixBytes, TailLength, Zeros, AddrBlockBytes;
    BlockSize(block, len, head, multi);
    var a := block[0];
    var headLen := if |block| == 1 then 0 else head;
    var tailLen := CalcTail(block, len, head);
    var zeroTail := IsZeroTail(a.bytes, tailLen);
    var flag;
    next, flag := WriteEnds(buf, at, |block|, a, headLen, tailLen, zeroTail, was, start, out);
    ghost var rest, m := HeadBytes(a, headLen) + TailBytes(a, tailLen), Mids(block, headLen, len - tailLen);
    ghost var full, zero := tailLen > 0 && !zeroTail, tailLen > 0 && zeroTail;
    ghost var f := AddrBits(headLen > 0, full, zero, false, false);
    next := WriteMids(buf, next, block, headLen, len - tailLen, was, start, out + [|block|] + [f] + rest);
    RegroupMids(out + [|block|] + [f], rest, m);
    next := WritePrefixes(buf, next, flag, block, len, multi, was, start, out + [|block|], headLen > 0, full, zero,
      rest + m);
    RegroupBlock(out, block, len, head, multi);
  }

  lemma RegroupMids(front: seq<Byte>, rest: seq<Byte>, m: seq<Byte>)
    ensures front + rest + m == front + (rest + m)
  {
  }

  lemma RegroupBlock(out: seq<Byte>, block: seq<Address>, len: nat, head: nat, multi: bool)
    requires SameLength(block, len) && |block| <= 255 && head < len <= MAX_ADDRLEN
    ensures var h, t, n: Byte := HeadLength(block, head), TailLength(block, len, head), |block|;
      out + AddrBlockBytes(block, len, head, multi) == out + [n] + [BlockFlags(block, len, head, multi)]
        + (HeadBytes(block[0], h) + TailBytes(block[0], t) + Mids(block, h, len - t) + PrefixBytes(block, len, multi))
  {
    hide BlockFlags, HeadBytes, TailBytes, Mids, PrefixBytes, TailLength;
  }
}
