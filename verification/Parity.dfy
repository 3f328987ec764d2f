/**
 The algebra of XOR parity. A parity accumulates, over a group of payloads, the
 exclusive or of their bytes (shorter payloads padded with zeros) and of their
 lengths; section 7.3 of RFC 5109 protects lengths in the same way.

 `Absorb` is what both the encoder and the decoder do with one payload. Since
 absorbing commutes and cancels, absorbing all payloads but one into the parity
 of all of them leaves exactly the parity of the missing one.
 */
module Parity {
  import opened Bits
  import opened Cyclic
  import opened Packet

  datatype Parity = Parity(len: u16, bytes: Bytes)

  function XorByte(a: byte, b: byte): byte {
    Pow2Values();
    XorWidth(a, b, 8);
    Xor(a, b)
  }

  function XorLen(a: u16, b: u16): u16 {
    Pow2Values();
    XorWidth(a, b, 16);
    Xor(a, b)
  }

  function XorBytes(acc: Bytes, s: Bytes): (r: Bytes)
    ensures |r| == |acc|
  {
    seq(|acc|, i requires 0 <= i < |acc| => if i < |s| then XorByte(acc[i], s[i]) else acc[i])
  }

  function Absorb(p: Parity, s: Bytes): (r: Parity)
    ensures |r.bytes| == |p.bytes|
  {
    Parity(XorLen(p.len, |s| % 65536), XorBytes(p.bytes, s))
  }

  lemma AbsorbTwice(p: Parity, s: Bytes)
    ensures Absorb(Absorb(p, s), s) == p
  {
    hide Xor;
    XorCancel(p.len, |s| % 65536);
    forall i | 0 <= i < |p.bytes|
      ensures Absorb(Absorb(p, s), s).bytes[i] == p.bytes[i]
    {
      if i < |s| { XorCancel(p.bytes[i], s[i]); }
    }
  }

  lemma XorSwap(a: nat, b: nat, c: nat)
    ensures Xor(Xor(a, b), c) == Xor(Xor(a, c), b)
  {
    hide Xor;
    XorAssoc(a, b, c);
    XorComm(b, c);
    XorAssoc(a, c, b);
  }

  lemma AbsorbCommutes(p: Parity, s: Bytes, t: Bytes)
    ensures Absorb(Absorb(p, s), t) == Absorb(Absorb(p, t), s)
  {
    hide Xor;
    XorSwap(p.len, |s| % 65536, |t| % 65536);
    forall i | 0 <= i < |p.bytes|
      ensures Absorb(Absorb(p, s), t).bytes[i] == Absorb(Absorb(p, t), s).bytes[i]
    {
      if i < |s| && i < |t| { XorSwap(p.bytes[i], s[i], t[i]); }
    }
  }

  /** Absorb a list, first element first. */
  function AbsorbAll(p: Parity, ps: seq<Bytes>): (r: Parity)
    ensures |r.bytes| == |p.bytes|
  {
    if ps == [] then p else Absorb(AbsorbAll(p, ps[..|ps| - 1]), ps[|ps| - 1])
  }

  /** Absorb the payloads whose index is in `chosen` and below `n`. */
  function AbsorbChosen(p: Parity, ps: seq<Bytes>, chosen: set<nat>, n: nat): (r: Parity)
    requires n <= |ps|
    ensures |r.bytes| == |p.bytes|
  {
    if n == 0 then p
    else
      var q := AbsorbChosen(p, ps, chosen, n - 1);
      if n - 1 in chosen then Absorb(q, ps[n - 1]) else q
  }

  lemma {:induction false} AbsorbFloats(p: Parity, s: Bytes, ps: seq<Bytes>, chosen: set<nat>, n: nat)
    requires n <= |ps|
    ensures AbsorbChosen(Absorb(p, s), ps, chosen, n) == Absorb(AbsorbChosen(p, ps, chosen, n), s)
    decreases n
  {
    hide Absorb;
    if n != 0 {
      AbsorbFloats(p, s, ps, chosen, n - 1);
      AbsorbCommutes(AbsorbChosen(p, ps, chosen, n - 1), s, ps[n - 1]);
    }
  }

  /** The order in which chosen payloads arrive does not matter. */
  lemma {:induction false} AbsorbOneMore(p: Parity, ps: seq<Bytes>, chosen: set<nat>, i: nat, n: nat)
    requires i < n <= |ps| && i !in chosen
    ensures AbsorbChosen(p, ps, chosen + {i}, n) == Absorb(AbsorbChosen(p, ps, chosen, n), ps[i])
    decreases n
  {
    hide Absorb;
    if i == n - 1 {
      SameBelow(p, ps, chosen, chosen + {i}, n - 1);
    } else {
      AbsorbOneMore(p, ps, chosen, i, n - 1);
      AbsorbCommutes(AbsorbChosen(p, ps, chosen, n - 1), ps[i], ps[n - 1]);
    }
  }

  lemma {:induction false} SameBelow(p: Parity, ps: seq<Bytes>, a: set<nat>, b: set<nat>, n: nat)
    requires n <= |ps|
    requires forall i :: 0 <= i < n ==> (i in a <==> i in b)
    ensures AbsorbChosen(p, ps, a, n) == AbsorbChosen(p, ps, b, n)
    decreases n
  {
    hide Absorb;
    if n != 0 { SameBelow(p, ps, a, b, n - 1); }
  }

  lemma {:induction false} AbsorbNone(p: Parity, ps: seq<Bytes>, n: nat)
    requires n <= |ps|
    ensures AbsorbChosen(p, ps, {}, n) == p
    decreases n
  {
    if n != 0 { AbsorbNone(p, ps, n - 1); }
  }

  lemma {:induction false} AbsorbEvery(p: Parity, ps: seq<Bytes>, chosen: set<nat>, n: nat)
    requires n <= |ps|
    requires forall i :: 0 <= i < n ==> i in chosen
    ensures AbsorbChosen(p, ps, chosen, n) == AbsorbAll(p, ps[..n])
    decreases n
  {
    hide Absorb;
    if n != 0 {
      AbsorbEvery(p, ps, chosen, n - 1);
      assert ps[..n][..n - 1] == ps[..n - 1];
    }
  }

  /** Absorbing a payload already present removes it. */
  lemma {:induction false} AbsorbRemoves(p: Parity, ps: seq<Bytes>, all: set<nat>, some: set<nat>, n: nat)
    requires n <= |ps| && some <= all
    ensures AbsorbChosen(AbsorbChosen(p, ps, all, n), ps, some, n) == AbsorbChosen(p, ps, all - some, n)
    decreases n
  {
    hide Absorb;
    if n != 0 {
      var q, s := AbsorbChosen(p, ps, all, n - 1), ps[n - 1];
      AbsorbRemoves(p, ps, all, some, n - 1);
      if n - 1 in all {
        AbsorbFloats(q, s, ps, some, n - 1);
        AbsorbTwice(AbsorbChosen(q, ps, some, n - 1), s);
      }
    }
  }

  /** Absorbing every payload but number `j` into the parity of all leaves payload `j`. */
  lemma MissingOneRemains(p: Parity, ps: seq<Bytes>, present: set<nat>, j: nat)
    requires j < |ps| && j !in present
    requires forall i :: 0 <= i < |ps| && i != j ==> i in present
    ensures AbsorbChosen(AbsorbAll(p, ps), ps, present, |ps|) == Absorb(p, ps[j])
  {
    hide Absorb;
    var n := |ps|;
    var all := present + {j};
    AbsorbEvery(p, ps, all, n);
    assert ps[..n] == ps;
    AbsorbRemoves(p, ps, all, present, n);
    assert all - present == {} + {j};
    AbsorbOneMore(p, ps, {}, j, n);
    AbsorbNone(p, ps, n);
  }

  function Zeros(n: nat): (z: Bytes)
    ensures |z| == n
  {
    seq(n, i requires 0 <= i < n => 0)
  }

  /** The parity of a single payload, taken alone, is that payload. */
  lemma AbsorbIntoZero(n: nat, s: Bytes)
    requires |s| <= n && |s| < 65536
    ensures var p := Absorb(Parity(0, Zeros(n)), s); p.len == |s| && p.bytes[..|s|] == s
  {
    XorZero(|s|);
    var p := Absorb(Parity(0, Zeros(n)), s);
    forall i | 0 <= i < |s|
      ensures p.bytes[i] == s[i]
    {
      XorZero(s[i]);
    }
  }

  /** The inner loop of both sides: `buf[k] ^= s[k]` for every byte of `s`. */
  method XorInto(buf: array<byte>, s: Bytes)
    requires |s| <= buf.Length
    modifies buf
    ensures buf[..] == XorBytes(old(buf[..]), s)
  {
    hide Xor;
    for i := 0 to |s|
      invariant forall k :: 0 <= k < i ==> buf[k] == XorByte(old(buf[k]), s[k])
      invariant forall k :: i <= k < buf.Length ==> buf[k] == old(buf[k])
    {
      buf[i] := XorByte(buf[i], s[i]);
    }
  }
}
