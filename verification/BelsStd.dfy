/** Secret sharing with the standard public keys: every share carries the number of its key. */
module BelsStd {
  import opened PowersOfTwo
  import opened Gf2Poly
  import opened Gf2Gcd
  import opened Bels
  import Octets

  const M16: seq<nat> := [
    0x00000087,
    0x00000285, 0x00000C41, 0x00001821, 0x00008015, 0x00008301, 0x00020281, 0x00022081, 0x0002A001,
    0x00080141, 0x00080205, 0x00082801, 0x0008A001, 0x00108041, 0x00200025, 0x00200405, 0x00200C01]

  const M24: seq<nat> := [
    0x00000087,
    0x00001209, 0x00001241, 0x00008601, 0x00008821, 0x0000C005, 0x00020049, 0x00020085, 0x00021009,
    0x00060801, 0x00090201, 0x000A0081, 0x00200411, 0x00228001, 0x00400209, 0x00420801, 0x00810401]

  const M32: seq<nat> := [
    0x00000425,
    0x0001000B, 0x0001000D, 0x0001A001, 0x00020061, 0x00040085, 0x00200181, 0x00204005, 0x00280011,
    0x00810201, 0x00820401, 0x0100000B, 0x01002801, 0x01200009, 0x02000029, 0x02002009, 0x0800000B]

  function Table(len: nat): (t: seq<nat>)
    ensures |t| == 17
  {
    if len == 16 then M16 else if len == 24 then M24 else M32
  }

  // The polynomials of the tables are irreducible: belsValM checks this.
  ghost predicate Standard(len: nat)
  {
    forall i :: 0 <= i < 17 ==> Irreducible(Key(8 * len, Table(len)[i]))
  }

  // The keys with the given numbers.
  function Keys(len: nat, nums: seq<nat>): (ms: seq<nat>)
    requires forall i :: 0 <= i < |nums| ==> nums[i] < 17
    ensures |ms| == |nums|
  {
    seq(|nums|, i requires 0 <= i < |nums| => Table(len)[nums[i]])
  }

  lemma Neighbours(len: nat, i: nat)
    requires i < 16
    ensures Table(len)[i] < Table(len)[i + 1]
  {
  }

  lemma {:induction false} Increasing(len: nat, i: nat, j: nat)
    requires i < j < 17
    ensures Table(len)[i] < Table(len)[j]
  {
    hide Table;
    Neighbours(len, j - 1);
    if i < j - 1 {
      Increasing(len, i, j - 1);
    }
  }

  lemma Fits(len: nat, i: nat)
    requires ValidLen(len) && i < 17
    ensures Table(len)[i] < Pow2(8 * len)
  {
    hide Pow2;
    if i < 16 {
      Increasing(len, i, 16);
    }
    Pow2Monotone(28, 8 * len);
    Pow28();
  }

  lemma Pow28()
    ensures Pow2(28) == 0x1000_0000
  {
    hide Pow2;
    Octets.Pow8();
    Pow2Add(8, 8);
    Pow2Add(16, 8);
    Pow4();
    Pow2Add(24, 4);
  }

  lemma Pow4()
    ensures Pow2(4) == 16
  {
  }

  lemma KeysLoaded(len: nat, nums: seq<nat>)
    requires ValidLen(len) && forall i :: 0 <= i < |nums| ==> nums[i] < 17
    ensures Loaded(8 * len, Keys(len, nums))
  {
    hide Pow2, Table;
    forall i | 0 <= i < |nums|
      ensures Keys(len, nums)[i] < Pow2(8 * len)
    {
      Fits(len, nums[i]);
    }
  }

  ghost predicate Distinct(nums: seq<nat>)
  {
    forall i, j :: 0 <= i < j < |nums| ==> nums[i] != nums[j]
  }

  lemma KeysCoprime(len: nat, nums: seq<nat>)
    requires Standard(len) && Distinct(nums) && forall i :: 0 <= i < |nums| ==> nums[i] < 17
    ensures PairwiseCoprime(8 * len, Keys(len, nums))
  {
    hide Pow2, Table, Irreducible, Coprime;
    var ms := Keys(len, nums);
    forall i, j | 0 <= i < j < |ms|
      ensures Coprime(Key(8 * len, ms[j]), Key(8 * len, ms[i]))
    {
      if nums[i] < nums[j] {
        Increasing(len, nums[i], nums[j]);
      } else {
        Increasing(len, nums[j], nums[i]);
      }
      DistinctIrreducible(Key(8 * len, ms[j]), Key(8 * len, ms[i]));
    }
  }

  // There are at most n different numbers below n.
  lemma {:induction false} AtMost(nums: seq<nat>, n: nat)
    requires Distinct(nums) && forall i :: 0 <= i < |nums| ==> nums[i] < n
    ensures |nums| <= n
  {
    if nums == [] {
      return;
    }
    assert nums[0] < n;
    if p :| 0 <= p < |nums| && nums[p] == n - 1 {
      AtMost(nums[..p] + nums[p + 1..], n - 1);
    } else {
      AtMost(nums, n - 1);
    }
  }

  // ---------------------------------------------------------------- sharing

  // The first octet of a share and the polynomial in the others.
  datatype Numbered = Numbered(num: nat, val: nat)

  function Nums(si: seq<Numbered>): (ns: seq<nat>)
    ensures |ns| == |si|
  {
    seq(|si|, i requires 0 <= i < |si| => si[i].num)
  }

  function Vals(si: seq<Numbered>): (vs: seq<nat>)
    ensures |vs| == |si|
  {
    seq(|si|, i requires 0 <= i < |si| => si[i].val)
  }

  /** belsShare2: user i + 1 gets the share under the key with that number. */
  method Share2(count: nat, threshold: nat, len: nat, s: nat, rng: nat -> nat, hasRng: bool)
    returns (code: Err, si: seq<Numbered>, ghost k: nat)
    requires s < Pow2(8 * len) && forall n :: rng(n) < Pow2(n)
    ensures code == if !hasRng then BadRng
                    else if !ValidLen(len) || threshold == 0 || count < threshold || count > 16 then BadInput
                    else Ok
    ensures code == Ok ==>
              && |si| == count && k == rng((threshold - 1) * (8 * len))
              && Loaded(8 * len, Vals(si))
              && forall i :: 0 <= i < count ==>
                               && si[i].num == i + 1
                               && si[i].val == Mod(Add(Mul(k, Pow2(8 * len) + Table(len)[0]), s), Pow2(8 * len) + Table(len)[i + 1])
  {
    hide Mod, Pow2, Add, Mul, Key, Table, WithNumbers, FirstKeys, Vals, Loaded;
    si, k := [], 0;
    if !hasRng {
      return BadRng, si, k;
    }
    if !ValidLen(len) || threshold == 0 || count < threshold || count > 16 {
      return BadInput, si, k;
    }
    var m0, ms := Table(len)[0], FirstKeys(len, count);
    Fits(len, 0);
    var vals;
    code, vals, k := Share(threshold, len, s, m0, ms, rng, true);
    si := WithNumbers(vals);
  }

  // The keys of the users 1 to count.
  function FirstKeys(len: nat, count: nat): (ms: seq<nat>)
    requires ValidLen(len) && count <= 16
    ensures |ms| == count && Loaded(8 * len, ms)
    ensures forall i :: 0 <= i < count ==> ms[i] == Table(len)[i + 1]
  {
    var nums := seq(count, i requires 0 <= i < count => i + 1);
    KeysLoaded(len, nums);
    Keys(len, nums)
  }

  function WithNumbers(vals: seq<nat>): (si: seq<Numbered>)
    ensures |si| == |vals| && Vals(si) == vals
    ensures forall i :: 0 <= i < |vals| ==> si[i].num == i + 1 && si[i].val == vals[i]
  {
    seq(|vals|, i requires 0 <= i < |vals| => Numbered(i + 1, vals[i]))
  }

  // ---------------------------------------------------------------- recovery

  ghost predicate Numbers(ns: seq<nat>)
  {
    Distinct(ns) && forall i :: 0 <= i < |ns| ==> 0 < ns[i] <= 16
  }

  /** belsRecover2: with numbers from 1 to 16 that do not repeat the keys are coprime, and the
      only refusals are those of lengths and numbers. */
  method Recover2(len: nat, si: seq<Numbered>) returns (code: Err, s: nat, ghost full: nat)
    requires Loaded(8 * len, Vals(si)) && (ValidLen(len) ==> Standard(len))
    ensures code == if !ValidLen(len) || |si| == 0 || |si| > 16 then BadInput
                    else if !Numbers(Nums(si)) then BadPubkey
                    else Ok
    ensures code == Ok ==>
              && full < Pow2(|si| * (8 * len)) && s == Mod(full, Key(8 * len, Table(len)[0]))
              && Interpolates(full, 8 * len, Keys(len, Nums(si)), Vals(si), |si|)
  {
    hide Mod, Pow2, Key, Table, Irreducible, PairwiseCoprime;
    s, full := 0, 0;
    if !ValidLen(len) || |si| == 0 || |si| > 16 {
      return BadInput, s, full;
    }
    var ns := Nums(si);
    for i := 0 to |ns|
      invariant forall p :: 0 <= p < i ==> 0 < ns[p] <= 16
      invariant forall p, q :: 0 <= p < i && p < q < |ns| ==> ns[p] != ns[q]
    {
      if ns[i] == 0 || ns[i] > 16 {
        return BadPubkey, s, full;
      }
      for j := i + 1 to |ns|
        invariant forall q :: i < q < j ==> ns[i] != ns[q]
      {
        if ns[i] == ns[j] {
          return BadPubkey, s, full;
        }
      }
    }
    KeysLoaded(len, ns);
    KeysCoprime(len, ns);
    Fits(len, 0);
    code, s, full := Recover(len, Vals(si), Table(len)[0], Keys(len, ns));
  }

  // What the recovered polynomial agrees with.
  lemma TakenShares(len: nat, count: nat, s: nat, k: nat, si: seq<Numbered>, users: seq<nat>, taken: seq<Numbered>, c: nat)
    requires ValidLen(len) && |si| == count <= 16 && |taken| == |users|
    requires forall j :: 0 <= j < |users| ==> users[j] < count && taken[j] == si[users[j]]
    requires forall i :: 0 <= i < count ==>
                           && si[i].num == i + 1
                           && si[i].val == Mod(Add(Mul(k, Pow2(8 * len) + Table(len)[0]), s), Pow2(8 * len) + Table(len)[i + 1])
    requires Interpolates(c, 8 * len, Keys(len, Nums(taken)), Vals(taken), |taken|)
    ensures var ms := Keys(len, Nums(taken));
            forall j :: 0 <= j < |ms| ==>
                          Mod(c, Key(8 * len, ms[j])) == Mod(Add(Mul(k, Key(8 * len, Table(len)[0])), s), Key(8 * len, ms[j]))
  {
    hide Mod, Pow2, Add, Mul, Table;
    var ms := Keys(len, Nums(taken));
    forall j | 0 <= j < |ms|
      ensures Mod(c, Key(8 * len, ms[j])) == Mod(Add(Mul(k, Key(8 * len, Table(len)[0])), s), Key(8 * len, ms[j]))
    {
      assert Vals(taken)[j] == si[users[j]].val && ms[j] == Table(len)[users[j] + 1];
    }
  }

  /** The shares of fewer than threshold users say nothing about the secret: for every k that
      gives them for s, k + j gives them for s'. */
  lemma Shares2HideSecret(len: nat, threshold: nat, nums: seq<nat>, s: nat, s': nat) returns (j: nat)
    requires ValidLen(len) && Standard(len) && s < Pow2(8 * len) && s' < Pow2(8 * len)
    requires |nums| < threshold && forall i :: 0 <= i < |nums| ==> 0 < nums[i] <= 16
    ensures forall k: nat :: k < Pow2((threshold - 1) * (8 * len)) ==> Add(k, j) < Pow2((threshold - 1) * (8 * len))
    ensures forall k: nat, i :: 0 <= i < |nums| ==>
              Mod(Add(Mul(k, Pow2(8 * len) + Table(len)[0]), s), Pow2(8 * len) + Table(len)[nums[i]])
              == Mod(Add(Mul(Add(k, j), Pow2(8 * len) + Table(len)[0]), s'), Pow2(8 * len) + Table(len)[nums[i]])
  {
    hide Mod, Pow2, Add, Mul, Table, Irreducible, Coprime, Key;
    var ms := Keys(len, nums);
    KeysLoaded(len, nums);
    Fits(len, 0);
    KeySpelled(8 * len, Table(len)[0], ms);
    forall i | 0 <= i < |ms|
      ensures Coprime(Key(8 * len, Table(len)[0]), Key(8 * len, ms[i]))
    {
      Increasing(len, 0, nums[i]);
      DistinctIrreducible(Key(8 * len, Table(len)[0]), Key(8 * len, ms[i]));
    }
    j := SharesHideSecret(8 * len, threshold, Table(len)[0], ms, s, s');
    forall k: nat, i | 0 <= i < |nums|
      ensures Mod(Add(Mul(k, Pow2(8 * len) + Table(len)[0]), s), Pow2(8 * len) + Table(len)[nums[i]])
              == Mod(Add(Mul(Add(k, j), Pow2(8 * len) + Table(len)[0]), s'), Pow2(8 * len) + Table(len)[nums[i]])
    {
      assert ms[i] == Table(len)[nums[i]];
    }
  }

  // ---------------------------------------------------------------- recovery undoes sharing

  /** The shares of any at least threshold different users give the secret back. */
  method Share2ThenRecover2(count: nat, threshold: nat, len: nat, s: nat, rng: nat -> nat, users: seq<nat>)
    returns (code: Err, s': nat)
    requires ValidLen(len) && Standard(len) && s < Pow2(8 * len) && forall n :: rng(n) < Pow2(n)
    requires 0 < threshold <= |users| && threshold <= count <= 16
    requires Distinct(users) && forall j :: 0 <= j < |users| ==> users[j] < count
    ensures code == Ok && s' == s
  {
    hide Mod, Pow2, Add, Mul, Key, Table, Irreducible, PairwiseCoprime;
    AtMost(users, count);
    var c, si, k := Share2(count, threshold, len, s, rng, true);
    var taken := seq(|users|, j requires 0 <= j < |users| => si[users[j]]);
    forall j | 0 <= j < |users|
      ensures Vals(taken)[j] == Vals(si)[users[j]] && Nums(taken)[j] == users[j] + 1
    {
    }
    assert Loaded(8 * len, Vals(taken));
    ghost var full;
    code, s', full := Recover2(len, taken);
    ghost var ms := Keys(len, Nums(taken));
    KeysLoaded(len, Nums(taken));
    KeysCoprime(len, Nums(taken));
    Fits(len, 0);
    KeySpelled(8 * len, Table(len)[0], ms);
    TakenShares(len, count, s, k, si, users, taken, full);
    SharesDetermineSecret(8 * len, threshold, Table(len)[0], k, s, ms, full);
  }
}
