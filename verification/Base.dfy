/** Vocabulary shared by every component: optional values and byte strings. */
module Base {
  datatype Option<+T> = None | Some(value: T)

  /** How a call goes: it works, or reports an error before or after its effect. */
  datatype Fault = Works | FailsBefore | FailsAfter

  /** What has happened so far, in order: the run of a state machine. */
  datatype Trace<A> = Begin | Then(earlier: Trace<A>, last: A)

  ghost predicate Occurs<A>(a: A, t: Trace<A>) {
    t.Then? && (t.last == a || Occurs(a, t.earlier))
  }

  type Byte = x: int | 0 <= x < 256

  type Bytes = seq<Byte>

  const U64_LIMIT: nat := 0x1_0000_0000_0000_0000
  const U32_LIMIT: nat := 0x1_0000_0000

  function Min(a: int, b: int): int {
    if a <= b then a else b
  }

  function Zeros(n: nat): (z: Bytes)
    ensures |z| == n
  {
    seq(n, (i: nat) => 0)
  }

  lemma {:induction false} SubSlice<T>(s: seq<T>, a: nat, b: nat, i: nat, j: nat)
    requires a <= b <= |s| && i <= j <= b - a
    ensures s[a..b][i..j] == s[a + i..a + j]
  {
    forall k | 0 <= k < j - i ensures s[a..b][i..j][k] == s[a + i..a + j][k] {
      assert s[a..b][i + k] == s[a + i + k];
    }
  }

  lemma {:induction false} JoinSlices<T>(s: seq<T>, a: nat, b: nat, c: nat)
    requires a <= b <= c <= |s|
    ensures s[a..b] + s[b..c] == s[a..c]
  {
  }

  function Concat<T>(parts: seq<seq<T>>): (whole: seq<T>)
    decreases |parts|
  {
    if parts == [] then [] else Concat(parts[..|parts| - 1]) + parts[|parts| - 1]
  }

  lemma {:induction false} ConcatSnoc<T>(parts: seq<seq<T>>, last: seq<T>)
    ensures Concat(parts + [last]) == Concat(parts) + last
  {
    assert (parts + [last])[..|parts|] == parts;
  }

  // ----- Products and quotients by repeated addition -----
  // Offsets multiply a chunk number by a chunk size. These forms equal `*` and `/` (see the last two
  // lemmas) and keep every other proof about offsets linear.

  function Times(k: nat, c: nat): nat {
    if k == 0 then 0 else Times(k - 1, c) + c
  }

  function Quot(n: nat, c: nat): (q: nat)
    requires c > 0
    ensures Times(q, c) <= n < Times(q, c) + c
  {
    if n < c then 0 else 1 + Quot(n - c, c)
  }

  lemma {:induction false} TimesGrows(a: nat, b: nat, c: nat)
    requires a < b
    ensures Times(a, c) + c <= Times(b, c)
    decreases b
  {
    if a < b - 1 {
      TimesGrows(a, b - 1, c);
    }
  }

  lemma {:induction false} QuotUnique(n: nat, c: nat, q: nat)
    requires c > 0 && Times(q, c) <= n < Times(q, c) + c
    ensures Quot(n, c) == q
  {
    var d := Quot(n, c);
    if d < q {
      TimesGrows(d, q, c);
    } else if q < d {
      TimesGrows(q, d, c);
    }
  }

  lemma {:induction false} QuotMonotone(a: nat, b: nat, c: nat)
    requires c > 0 && a <= b
    ensures Quot(a, c) <= Quot(b, c)
  {
    if Quot(b, c) < Quot(a, c) {
      TimesGrows(Quot(b, c), Quot(a, c), c);
    }
  }

  lemma {:induction false} TimesIsProduct(k: nat, c: nat)
    ensures Times(k, c) == k * c
    decreases k
  {
    if k > 0 {
      TimesIsProduct(k - 1, c);
      assert k * c == (k - 1) * c + c;
    }
  }

  lemma {:induction false} QuotIsDivision(n: nat, c: nat)
    requires c > 0
    ensures Quot(n, c) == n / c
  {
    var q := n / c;
    TimesIsProduct(q, c);
    assert n == q * c + n % c;
    QuotUnique(n, c, q);
  }

  /** 64-bit wrap-around, by steps of 2^64 so that every proof about it stays linear. */
  function Wrap(x: int): (r: nat)
    ensures r < U64_LIMIT
    decreases if x < 0 then 1 else 0, if x < 0 then -x else x
  {
    if x < 0 then Wrap(x + U64_LIMIT) else if x < U64_LIMIT then x else Wrap(x - U64_LIMIT)
  }

  lemma {:induction false} ModuloShift(x: int)
    ensures (x + U64_LIMIT) % U64_LIMIT == x % U64_LIMIT
  {
  }

  lemma {:induction false} WrapIsModulo(x: int)
    ensures Wrap(x) == x % U64_LIMIT
    decreases if x < 0 then 1 else 0, if x < 0 then -x else x
  {
    if x < 0 {
      WrapIsModulo(x + U64_LIMIT);
      ModuloShift(x);
    } else if x >= U64_LIMIT {
      WrapIsModulo(x - U64_LIMIT);
      ModuloShift(x - U64_LIMIT);
    }
  }

  lemma {:induction false} WrapSmall(x: int)
    requires 0 <= x < U64_LIMIT
    ensures Wrap(x) == x
  {
  }
}
