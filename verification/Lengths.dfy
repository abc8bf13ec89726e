/** Decimal numbers, and the content-length rule a client holds a response to. */
module Lengths {
  import opened Bytes
  import opened Headers

  const MAX_DIGITS := 19

  predicate Digit(c: int) {
    '0' as int <= c <= '9' as int
  }

  predicate Digits(v: bytes) {
    forall i :: 0 <= i < |v| ==> Digit(v[i])
  }

  /** The number a string of digits denotes. */
  function Value(v: bytes): nat
    requires Digits(v)
  {
    if v == [] then 0 else Value(v[..|v| - 1]) * 10 + (v[|v| - 1] - '0' as int)
  }

  /** strconv.FormatInt in base 10, of a non-negative number. */
  function Decimal(n: nat): bytes {
    if n < 10 then ['0' as int + n] else Decimal(n / 10) + ['0' as int + n % 10]
  }

  lemma {:induction false} DecimalDenotes(n: nat)
    ensures Decimal(n) != [] && Digits(Decimal(n)) && Value(Decimal(n)) == n
  {
    if n < 10 {
      assert Decimal(n)[..0] == [];
    } else {
      DecimalDenotes(n / 10);
      assert Decimal(n)[..|Decimal(n)| - 1] == Decimal(n / 10);
    }
  }

  function Pow10(k: nat): nat {
    if k == 0 then 1 else 10 * Pow10(k - 1)
  }

  lemma {:induction false} DecimalLength(n: nat, k: nat)
    requires k > 0
    ensures |Decimal(n)| <= k <==> n < Pow10(k)
  {
    if k == 1 {
      DecimalDenotes(n / 10);
      assert Pow10(1) == 10 * Pow10(0);
    } else if n < 10 {
      PowersGrow(k);
    } else {
      DecimalLength(n / 10, k - 1);
    }
  }

  lemma {:induction false} PowersGrow(k: nat)
    requires k > 0
    ensures Pow10(k) >= 10
  {
    if k > 1 {
      PowersGrow(k - 1);
    }
  }

  lemma TenToThe()
    ensures Pow10(18) == 1_000_000_000_000_000_000
    ensures Pow10(19) == 10_000_000_000_000_000_000
  {
    assert Pow10(6) == 1_000_000;
    assert Pow10(12) == 1_000_000_000_000;
  }

  /** Every int64 size fits in 19 digits, and the largest needs them all. */
  lemma NineteenDigitsIsTight(n: nat)
    requires n <= MAX_INT64
    ensures 1 <= |Decimal(n)| <= MAX_DIGITS
    ensures |Decimal(MAX_INT64)| == MAX_DIGITS
  {
    DecimalDenotes(n);
    TenToThe();
    DecimalLength(n, 19);
    DecimalLength(MAX_INT64, 19);
    DecimalLength(MAX_INT64, 18);
  }

  /** strconv.ParseInt(v, 10, 64) of a non-empty string of digits. */
  function ParseInt64(v: bytes): Option<int>
    requires Digits(v)
  {
    if Value(v) <= MAX_INT64 then Some(Value(v)) else None
  }

  /** A content-length value that promises exactly `got` bytes. */
  predicate Promises(v: bytes, got: int) {
    1 <= |v| <= MAX_DIGITS && Digits(v) && Value(v) == got <= MAX_INT64
  }

  predicate LengthsAgree(headers: seq<Header>, got: int) {
    forall h | h in headers && h.name == CONTENT_LENGTH :: Promises(h.value, got)
  }

  method CheckLength(headers: seq<Header>, got: int) returns (ok: bool)
    ensures ok <==> LengthsAgree(headers, got)
  {
    for k := 0 to |headers|
      invariant forall j :: 0 <= j < k && headers[j].name == CONTENT_LENGTH ==> Promises(headers[j].value, got)
    {
      var h := headers[k];
      assert h in headers;
      if h.name != CONTENT_LENGTH {
        continue;
      }
      var v := h.value;
      if |v| == 0 || |v| > MAX_DIGITS {
        return false;
      }
      for i := 0 to |v|
        invariant forall j :: 0 <= j < i ==> Digit(v[j])
      {
        if !Digit(v[i]) {
          return false;
        }
      }
      var want := ParseInt64(v);
      if want.None? {
        return false;
      }
      if want.value != got {
        return false;
      }
    }
    return true;
  }

  /**
   Only table id 2 counts: whatever custom headers a response carries, the check passes exactly
   when every header sent under the content-length identifier promises the bytes that arrived.
   */
  lemma {:induction false} OnlyTheTableHeaderCounts(rs: seq<Raw>, got: int)
    ensures LengthsAgree(Meanings(rs), got) <==> forall r | r in rs && r.id == 2 :: Promises(r.value, got)
  {
    if rs != [] {
      var r, more := rs[0], Meanings(rs[1..]);
      OnlyTheTableHeaderCounts(rs[1..], got);
      assert rs == [r] + rs[1..];
      CountsOnlyIfId2(r);
      assert Meanings(rs) == Returned(r) + more;
      assert LengthsAgree(Meanings(rs), got) <==> LengthsAgree(Returned(r), got) && LengthsAgree(more, got) by {
        forall h | h in Returned(r) + more ensures h in Returned(r) || h in more {}
      }
    }
  }

  lemma CountsOnlyIfId2(r: Raw)
    ensures Kept(r) ==> (Meaning(r).name == CONTENT_LENGTH <==> r.id == 2)
    ensures r.id == 2 ==> Kept(r)
  {
    TableIsBijective(2, CONTENT_LENGTH);
    if Kept(r) && r.id != 0 && Meaning(r).name == CONTENT_LENGTH {
      TableNamesDiffer(r.id, 2);
    }
  }
}
