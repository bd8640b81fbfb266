/**
 Integer arithmetic in base `k`.  Products and quotients are recursive functions
 here, proved equal to `*`, `/` and `%`: the topology is about their algebra, not
 about their values, and its proofs only ever need the laws below.
 */
module Base {

  const U64_MAX: nat := 0xFFFF_FFFF_FFFF_FFFF

  /** The valid arity range of the spine. */
  type Arity = k: int | 2 <= k <= 256 witness 2

  datatype Option<+T> = None | Some(value: T)

  lemma Assoc<T>(a: seq<T>, b: seq<T>, c: seq<T>)
    ensures a + b + c == a + (b + c)
  {
  }

  lemma Parts<T>(s: seq<T>, a: seq<T>, b: seq<T>)
    requires s == a + b
    ensures s[..|s| - |b|] == a && s[|s| - |b|..] == b
  {
  }

  /** `a * n`. */
  function Times(a: nat, n: nat): (t: nat)
    ensures n == 0 ==> t == 0
    ensures n == 1 ==> t == a
  {
    if n == 0 then 0 else a + Times(a, n - 1)
  }

  /** `n / k`. */
  function Quot(k: nat, n: nat): (q: nat)
    requires k >= 1
    ensures Times(k, q) <= n < Times(k, q) + k
    ensures q <= n && (k >= 2 && n > 0 ==> q < n)
  {
    if n < k then 0 else 1 + Quot(k, n - k)
  }

  /** `n % k`. */
  function Rem(k: nat, n: nat): (r: nat)
    requires k >= 1
    ensures r < k && n == Times(k, Quot(k, n)) + r
  {
    n - Times(k, Quot(k, n))
  }

  /** `k^h`. */
  function Pow(k: Arity, h: nat): (p: nat)
    ensures p >= 1
  {
    if h == 0 then 1 else (TimesGap(k, 1, Pow(k, h - 1)); Times(k, Pow(k, h - 1)))
  }

  lemma PowSucc(k: Arity, h: nat)
    ensures Pow(k, 0) == 1 && Pow(k, 1) == k
    ensures Pow(k, h + 1) == Times(k, Pow(k, h))
  {
  }

  lemma {:induction false} TimesIs(a: nat, n: nat)
    ensures Times(a, n) == a * n
  {
    if n > 0 {
      TimesIs(a, n - 1);
      assert a * n == a * (n - 1) + a;
    }
  }

  lemma TimesSucc(a: nat, n: nat)
    ensures Times(a, n + 1) == Times(a, n) + a
  {
  }

  lemma {:induction false} TimesAdd(a: nat, m: nat, n: nat)
    ensures Times(a, m + n) == Times(a, m) + Times(a, n)
  {
    if n > 0 {
      TimesAdd(a, m, n - 1);
    }
  }

  /** Multiples of `a` are ordered as their factors and at least `a` apart. */
  lemma {:induction false} TimesGap(a: nat, m: nat, n: nat)
    ensures m <= n ==> Times(a, m) <= Times(a, n)
    ensures m < n ==> Times(a, m) + a <= Times(a, n)
  {
    if m < n {
      TimesAdd(a, m, n - m);
      assert Times(a, n - m) == a + Times(a, n - m - 1);
    }
  }

  lemma {:induction false} TimesAssoc(a: nat, b: nat, n: nat)
    ensures Times(Times(a, b), n) == Times(a, Times(b, n))
  {
    if n > 0 {
      TimesAssoc(a, b, n - 1);
      TimesAdd(a, b, Times(b, n - 1));
    }
  }

  lemma {:induction false} TimesComm(a: nat, b: nat)
    ensures Times(a, b) == Times(b, a)
  {
    TimesIs(a, b);
    TimesIs(b, a);
    assert a * b == b * a;
  }

  /** Quotient and remainder are the only split of a number. */
  lemma QuotUnique(k: nat, q: nat, r: nat)
    requires r < k
    ensures Quot(k, Times(k, q) + r) == q && Rem(k, Times(k, q) + r) == r
  {
    var q' := Quot(k, Times(k, q) + r);
    TimesGap(k, q, q');
    TimesGap(k, q', q);
  }

  lemma {:induction false} QuotIs(k: nat, n: nat)
    requires k >= 1
    ensures Quot(k, n) == n / k && Rem(k, n) == n % k
  {
    TimesIs(k, Quot(k, n));
    TimesIs(k, n / k);
    assert n == k * (n / k) + n % k;
    assert n / k >= 0;
    QuotUnique(k, n / k, n % k);
  }

  lemma QuotMono(k: nat, m: nat, n: nat)
    requires k >= 1 && m <= n
    ensures Quot(k, m) <= Quot(k, n)
    ensures Quot(k, m) == Quot(k, n) ==> Rem(k, m) <= Rem(k, n)
  {
    TimesGap(k, Quot(k, n), Quot(k, m));
  }
}
