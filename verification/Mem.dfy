/** Octet regions of one memory; regions may overlap in any way. */
module Mem {

  // Addresses are indices into the memory; a region is an address and a length.
  predicate InRegion(i: nat, at: nat, count: nat)
  {
    at <= i < at + count
  }

  /** memIsDisjoint2 holds exactly when no octet belongs to both regions. */
  predicate IsDisjoint2(buf1: nat, count1: nat, buf2: nat, count2: nat): (r: bool)
    ensures r <==> forall i: nat :: !(InRegion(i, buf1, count1) && InRegion(i, buf2, count2))
  {
    var r := count1 == 0 || count2 == 0 || buf1 + count1 <= buf2 || buf1 >= buf2 + count2;
    assert !r ==> InRegion(if buf1 < buf2 then buf2 else buf1, buf1, count1)
                  && InRegion(if buf1 < buf2 then buf2 else buf1, buf2, count2);
    r
  }

  function Slice(m: seq<nat>, at: nat, count: nat): (s: seq<nat>)
    requires at + count <= |m|
    ensures |s| == count
  {
    m[at..at + count]
  }

  // m with s written at address at and every other octet kept
  function Write(m: seq<nat>, at: nat, s: seq<nat>): (w: seq<nat>)
    requires at + |s| <= |m|
    ensures |w| == |m|
  {
    m[..at] + s + m[at + |s|..]
  }

  // ---------------------------------------------------------------- laws of writing

  lemma WriteAt(m: seq<nat>, at: nat, s: seq<nat>, i: nat)
    requires at + |s| <= |m| && i < |m|
    ensures Write(m, at, s)[i] == if InRegion(i, at, |s|) then s[i - at] else m[i]
  {
  }

  // A region away from the one that was written still holds what it held.
  lemma SliceKept(m: seq<nat>, dest: nat, s: seq<nat>, at: nat, count: nat)
    requires dest + |s| <= |m| && at + count <= |m|
    requires IsDisjoint2(at, count, dest, |s|) || IsDisjoint2(dest, |s|, at, count)
    ensures Slice(Write(m, dest, s), at, count) == Slice(m, at, count)
  {
    hide IsDisjoint2;
    var w := Write(m, dest, s);
    forall i | 0 <= i < count
      ensures Slice(w, at, count)[i] == Slice(m, at, count)[i]
    {
      assert InRegion(at + i, at, count);
      WriteAt(m, dest, s, at + i);
    }
  }

  lemma WriteAdjacent(m: seq<nat>, at: nat, s: seq<nat>, t: seq<nat>)
    requires at + |s| + |t| <= |m|
    ensures Write(Write(m, at, s), at + |s|, t) == Write(m, at, s + t)
    ensures Write(Write(m, at + |s|, t), at, s) == Write(m, at, s + t)
  {
  }

  lemma WriteAgain(m: seq<nat>, at: nat, s: seq<nat>, t: seq<nat>)
    requires |s| == |t| && at + |s| <= |m|
    ensures Write(Write(m, at, s), at, t) == Write(m, at, t)
    ensures Slice(Write(m, at, s), at, |s|) == s
  {
  }

  lemma WriteSame(m: seq<nat>, at: nat, count: nat)
    requires at + count <= |m|
    ensures Write(m, at, Slice(m, at, count)) == m
  {
  }

  lemma WriteNothing(m: seq<nat>, at: nat)
    requires at <= |m|
    ensures Write(m, at, []) == m
  {
  }

  lemma WriteOver(m: seq<nat>, at: nat, s: seq<nat>, t: seq<nat>)
    requires |s| <= |t| && at + |t| <= |m|
    ensures Write(Write(m, at, s), at, t) == Write(m, at, t)
    ensures Slice(Write(m, at, s), at, |s|) == s
  {
  }

  // A value moved up behind a longer header: t takes the place of t0 between s and u.
  lemma WritePatch(m: seq<nat>, at: nat, s: seq<nat>, t0: seq<nat>, t: seq<nat>, u: seq<nat>)
    requires |t0| <= |t| && at + |s| + |t| + |u| <= |m|
    ensures var w := Write(m, at, s + t0 + u);
            && Slice(w, at + |s| + |t0|, |u|) == u
            && Write(Write(w, at + |s| + |t|, u), at + |s|, t) == Write(m, at, s + t + u)
  {
  }

  lemma WriteAll(m: seq<nat>, s: seq<nat>)
    requires |s| == |m|
    ensures Write(m, 0, s) == s
  {
  }

  // A write that covers earlier ones.
  lemma WriteCovers(m: seq<nat>, p: nat, s: seq<nat>, t: seq<nat>)
    requires p + |s| <= |t| <= |m|
    ensures Write(Write(m, p, s), 0, t) == Write(m, 0, t)
  {
  }

  lemma WriteFront(m: seq<nat>, at: nat, x: nat, s: seq<nat>)
    requires at + 1 + |s| <= |m|
    ensures Write(m, at + 1, s)[at := x] == Write(m, at, [x] + s)
  {
  }

  // A value first, then the two parts in front of it.
  lemma WriteThree(m: seq<nat>, at: nat, s: seq<nat>, t: seq<nat>, u: seq<nat>)
    requires at + |s| + |t| + |u| <= |m|
    ensures Write(Write(Write(m, at + |s| + |t|, u), at, s), at + |s|, t) == Write(m, at, s + t + u)
  {
    hide Write;
    WriteAdjacent(Write(m, at + |s + t|, u), at, s, t);
    WriteAdjacent(m, at, s + t, u);
  }

  lemma WriteOne(m: seq<nat>, at: nat, x: nat)
    requires at < |m|
    ensures Write(m, at, [x]) == m[at := x]
  {
  }

  // ---------------------------------------------------------------- moving

  method Move(mem: array<nat>, dest: nat, src: nat, count: nat)
    requires dest + count <= mem.Length && src + count <= mem.Length
    modifies mem
    ensures mem[..] == Write(old(mem[..]), dest, Slice(old(mem[..]), src, count))
  {
    forall i | dest <= i < dest + count {
      mem[i] := mem[src + i - dest];
    }
  }

  // s without its first n octets, followed by them
  function Rotated(s: seq<nat>, n: nat): (t: seq<nat>)
    requires n <= |s|
    ensures |t| == |s|
  {
    s[n..] + s[..n]
  }

  // Moving the region one octet down and storing its first octet last rotates it by one.
  lemma RotateStep(m: seq<nat>, dest: nat, s: seq<nat>, i: nat)
    requires i < |s| && dest + |s| <= |m|
    ensures var r := Write(m, dest, Rotated(s, i));
            var w := Write(r, dest, Slice(r, dest + 1, |s| - 1));
            w[dest + |s| - 1 := r[dest]] == Write(m, dest, Rotated(s, i + 1))
  {
    hide Write, Slice;
    var t := Rotated(s, i);
    var r := Write(m, dest, t);
    WriteAgain(m, dest, t, Rotated(s, i + 1));
    ShiftedSlice(r, dest, t);
    var w := Write(r, dest, t[1..]);
    WriteOne(w, dest + |s| - 1, t[0]);
    WriteAdjacent(r, dest, t[1..], [t[0]]);
    assert t[1..] + [t[0]] == Rotated(s, i + 1);
  }

  lemma ShiftedSlice(r: seq<nat>, dest: nat, t: seq<nat>)
    requires |t| > 0 && dest + |t| <= |r| && Slice(r, dest, |t|) == t
    ensures Slice(r, dest + 1, |t| - 1) == t[1..] && r[dest] == t[0]
  {
    assert r[dest] == Slice(r, dest, |t|)[0];
  }

  // dest <- dest <<< n: the first n octets of the region go to its end, one by one
  method RotateLeft(mem: array<nat>, dest: nat, count: nat, n: nat)
    requires dest + count <= mem.Length && n <= count
    modifies mem
    ensures mem[..] == Write(old(mem[..]), dest, Rotated(Slice(old(mem[..]), dest, count), n))
  {
    hide Write, Slice, Rotated;
    ghost var m := mem[..];
    ghost var s := Slice(m, dest, count);
    var i := 0;
    RotatedNone(s);
    WriteSame(m, dest, count);
    while i < n
      invariant 0 <= i <= n
      invariant mem[..] == Write(m, dest, Rotated(s, i))
    {
      RotateStep(m, dest, s, i);
      var o := mem[dest];
      Move(mem, dest, dest + 1, count - 1);
      mem[dest + count - 1] := o;
      i := i + 1;
    }
  }

  lemma RotatedNone(s: seq<nat>)
    ensures Rotated(s, 0) == s
  {
  }

  lemma RotatedSwap(s: seq<nat>, t: seq<nat>)
    ensures Rotated(s + t, |s|) == t + s
  {
    assert (s + t)[|s|..] == t && (s + t)[..|s|] == s;
  }

  // ---------------------------------------------------------------- memJoin

  // dest <- src1 || src2 when one of the two orders of moves destroys nothing
  method Concat(mem: array<nat>, dest: nat, src1: nat, count1: nat, src2: nat, count2: nat)
    requires src1 + count1 <= mem.Length && src2 + count2 <= mem.Length
    requires dest + count1 + count2 <= mem.Length
    requires IsDisjoint2(dest, count1, src2, count2) || IsDisjoint2(dest + count1, count2, src1, count1)
    modifies mem
    ensures mem[..] == Write(old(mem[..]), dest,
                             Slice(old(mem[..]), src1, count1) + Slice(old(mem[..]), src2, count2))
  {
    hide IsDisjoint2, Write, Slice;
    ghost var m := mem[..];
    ghost var s, t := Slice(m, src1, count1), Slice(m, src2, count2);
    WriteAdjacent(m, dest, s, t);
    if IsDisjoint2(dest, count1, src2, count2) {
      Move(mem, dest, src1, count1);
      SliceKept(m, dest, s, src2, count2);
      Move(mem, dest + count1, src2, count2);
    } else {
      Move(mem, dest + count1, src2, count2);
      SliceKept(m, dest + count1, t, src1, count1);
      Move(mem, dest, src1, count1);
    }
  }

  // The first j octets of a and the last j octets of b are already in place.
  function EndsPlaced(m: seq<nat>, dest: nat, a: seq<nat>, b: seq<nat>, j: nat): (w: seq<nat>)
    requires dest + |a| + |b| <= |m| && j <= |a| && j <= |b|
    ensures |w| == |m|
  {
    Write(Write(m, dest, a[..j]), dest + |a| + |b| - j, b[|b| - j..])
  }

  lemma NothingPlaced(m: seq<nat>, dest: nat, a: seq<nat>, b: seq<nat>)
    requires dest + |a| + |b| <= |m|
    ensures EndsPlaced(m, dest, a, b, 0) == m
  {
  }

  lemma OneMore(m: seq<nat>, dest: nat, a: seq<nat>, b: seq<nat>, j: nat)
    requires dest + |a| + |b| <= |m| && j < |a| && j < |b|
    ensures EndsPlaced(m, dest, a, b, j)[dest + j := a[j]][dest + |a| + |b| - j - 1 := b[|b| - j - 1]]
            == EndsPlaced(m, dest, a, b, j + 1)
  {
    hide EndsPlaced;
    var last := dest + |a| + |b| - j - 1;
    var w := EndsPlaced(m, dest, a, b, j)[dest + j := a[j]][last := b[|b| - j - 1]];
    forall k | 0 <= k < |m|
      ensures w[k] == EndsPlaced(m, dest, a, b, j + 1)[k]
    {
      EndsAt(m, dest, a, b, j, k);
      EndsAt(m, dest, a, b, j + 1, k);
    }
  }

  lemma EndsAt(m: seq<nat>, dest: nat, a: seq<nat>, b: seq<nat>, j: nat, k: nat)
    requires dest + |a| + |b| <= |m| && j <= |a| && j <= |b| && k < |m|
    ensures var last := dest + |a| + |b|;
            EndsPlaced(m, dest, a, b, j)[k]
            == if InRegion(k, dest, j) then a[k - dest]
               else if InRegion(k, last - j, j) then b[k - last + |b|]
               else m[k]
  {
    hide Write;
    var last := dest + |a| + |b|;
    WriteAt(m, dest, a[..j], k);
    WriteAt(Write(m, dest, a[..j]), last - j, b[|b| - j..], k);
  }

  lemma Assemble(m: seq<nat>, dest: nat, a: seq<nat>, b: seq<nat>, j: nat)
    requires dest + |a| + |b| <= |m| && j <= |a| && j <= |b|
    ensures Write(EndsPlaced(m, dest, a, b, j), dest + j, a[j..] + b[..|b| - j]) == Write(m, dest, a + b)
  {
  }

  // Both sources reach into all the parts of dest that the four tests ask about.
  lemma Wedged(dest: nat, count1: nat, count2: nat, src1: nat, src2: nat)
    requires !IsDisjoint2(dest, count1, src2, count2) && !IsDisjoint2(dest + count1, count2, src1, count1)
    requires !IsDisjoint2(dest, count2, src1, count1) && !IsDisjoint2(dest + count2, count1, src2, count2)
    ensures count1 > 0 && count2 > 0
    ensures dest < src1 && src1 + count1 < dest + count1 + count2
    ensures dest < src2 && src2 + count2 < dest + count1 + count2
  {
  }

  // Writing the first and the last octet of dest leaves what is still to be read.
  lemma StillUnread(m: seq<nat>, first: nat, last: nat, src: nat, count: nat, x: nat, y: nat)
    requires first < src && src + count <= last < |m| && 0 < count
    ensures var w := m[first := x][last := y];
            && Slice(w, src + 1, count - 1) == Slice(m, src, count)[1..]
            && Slice(w, src, count - 1) == Slice(m, src, count)[..count - 1]
            && m[src] == Slice(m, src, count)[0]
            && m[src + count - 1] == Slice(m, src, count)[count - 1]
  {
  }

  /** memJoin: dest <- src1 || src2, wherever the three regions lie. */
  method Join(mem: array<nat>, dest0: nat, src10: nat, count10: nat, src2: nat, count20: nat)
    requires src10 + count10 <= mem.Length && src2 + count20 <= mem.Length
    requires dest0 + count10 + count20 <= mem.Length
    modifies mem
    ensures mem[..] == Write(old(mem[..]), dest0,
                             Slice(old(mem[..]), src10, count10) + Slice(old(mem[..]), src2, count20))
  {
    hide IsDisjoint2, Write, Slice, EndsPlaced, Rotated;
    var dest: nat, src1: nat, count1: nat, count2: nat := dest0, src10, count10, count20;
    ghost var m := mem[..];
    ghost var a, b := Slice(m, src10, count10), Slice(m, src2, count20);
    ghost var j: nat := 0;
    NothingPlaced(m, dest0, a, b);
    while true
      invariant j <= count10 && j <= count20
      invariant dest == dest0 + j && src1 == src10 + j && count1 == count10 - j && count2 == count20 - j
      invariant mem[..] == EndsPlaced(m, dest0, a, b, j)
      // what has not been read yet
      invariant Slice(mem[..], src1, count1) == a[j..]
      invariant Slice(mem[..], src2, count2) == b[..count2]
      decreases count1 + count2
    {
      ghost var w, s, t := mem[..], a[j..], b[..count2];
      Assemble(m, dest0, a, b, j);
      if IsDisjoint2(dest, count1, src2, count2) || IsDisjoint2(dest + count1, count2, src1, count1) {
        Concat(mem, dest, src1, count1, src2, count2);
        return;
      } else if IsDisjoint2(dest, count2, src1, count1) || IsDisjoint2(dest + count2, count1, src2, count2) {
        Concat(mem, dest, src2, count2, src1, count1);
        WriteAgain(w, dest, t + s, s + t);
        RotatedSwap(t, s);
        RotateLeft(mem, dest, count1 + count2, count2);
        return;
      }
      // the first and the last octet of dest lie outside both sources
      Wedged(dest, count1, count2, src1, src2);
      OneMore(m, dest0, a, b, j);
      StillUnread(w, dest, dest + count1 + count2 - 1, src1, count1, s[0], t[count2 - 1]);
      StillUnread(w, dest, dest + count1 + count2 - 1, src2, count2, s[0], t[count2 - 1]);
      mem[dest] := mem[src1];
      mem[dest + count1 + count2 - 1] := mem[src2 + count2 - 1];
      count1 := count1 - 1;
      count2 := count2 - 1;
      src1 := src1 + 1;
      dest := dest + 1;
      j := j + 1;
    }
  }
}
