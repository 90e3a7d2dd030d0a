/**
  Stroke identifiers. The editor names each new stroke `stroke-${strokeCount}`,
  the counter written in decimal, and then increments the counter; this module
  shows that distinct counter values give distinct identifiers, and states the
  invariant that every identifier in use was issued below the counter exactly once.
 */
module StrokeIds {
  import opened Wrappers

  const PREFIX: string := "stroke-"

  predicate IsDigit(c: char) { '0' <= c <= '9' }

  predicate AllDigits(s: string) { forall i :: 0 <= i < |s| ==> IsDigit(s[i]) }

  function DigitChar(d: nat): (c: char)
    requires d < 10
    ensures IsDigit(c) && c as int - '0' as int == d
  {
    ('0' as int + d) as char
  }

  /** The decimal numeral of `n`, as JavaScript writes an integer into a template string. */
  function Decimal(n: nat): (s: string)
    ensures |s| > 0 && AllDigits(s)
    ensures s[0] == '0' ==> n == 0
  {
    if n < 10 then [DigitChar(n)] else Decimal(n / 10) + [DigitChar(n % 10)]
  }

  /** The value of a numeral. */
  function DecimalValue(s: string): nat
    requires AllDigits(s)
  {
    if s == [] then 0
    else DecimalValue(s[..|s| - 1]) * 10 + (s[|s| - 1] as int - '0' as int)
  }

  /** The identifier of the stroke created when the counter stands at `n`. */
  function StrokeId(n: nat): string
  {
    PREFIX + Decimal(n)
  }

  /** The counter value an identifier of the form `stroke-<digits>` carries. */
  function ParseStrokeId(id: string): Option<nat>
  {
    if |id| > |PREFIX| && id[..|PREFIX|] == PREFIX && AllDigits(id[|PREFIX|..])
    then Some(DecimalValue(id[|PREFIX|..]))
    else None
  }

  lemma {:induction false} DecimalRoundTrip(n: nat)
    ensures DecimalValue(Decimal(n)) == n
  {
    if n >= 10 {
      DecimalRoundTrip(n / 10);
      var s := Decimal(n);
      assert s[..|s| - 1] == Decimal(n / 10);
    }
  }

  /** Reading the counter back out of an identifier gives the counter it was made from. */
  lemma StrokeIdRoundTrip(n: nat)
    ensures ParseStrokeId(StrokeId(n)) == Some(n)
  {
    var id := StrokeId(n);
    assert id[..|PREFIX|] == PREFIX && id[|PREFIX|..] == Decimal(n);
    DecimalRoundTrip(n);
  }

  /** Two identifiers are equal exactly when they were made from the same counter value. */
  lemma StrokeIdInjective(m: nat, n: nat)
    ensures StrokeId(m) == StrokeId(n) <==> m == n
  {
    StrokeIdRoundTrip(m);
    StrokeIdRoundTrip(n);
  }

  /** `id` was issued while the counter stood below `count`. */
  predicate IssuedBelow(id: string, count: nat)
  {
    ParseStrokeId(id).Some? && ParseStrokeId(id).value < count
  }

  /**
    The identifier invariant for the identifiers in use: each was issued below
    the counter, and none occurs twice.
   */
  ghost predicate UniqueIssued(ids: seq<string>, count: nat)
  {
    && (forall id :: id in multiset(ids) ==> IssuedBelow(id, count))
    && (forall id :: multiset(ids)[id] <= 1)
  }

  /** The invariant survives dropping and reordering identifiers. */
  lemma UniqueIssuedSubBag(ids: seq<string>, sub: seq<string>, count: nat)
    requires UniqueIssued(ids, count)
    requires multiset(sub) <= multiset(ids)
    ensures UniqueIssued(sub, count)
  {
    forall id | id in multiset(sub) ensures IssuedBelow(id, count) {
      assert id in multiset(ids);
    }
    forall id ensures multiset(sub)[id] <= 1 {
      assert multiset(sub)[id] <= multiset(ids)[id];
    }
  }

  /** Issuing the identifier for the current counter and incrementing it keeps the invariant. */
  lemma UniqueIssuedAllocate(ids: seq<string>, count: nat)
    requires UniqueIssued(ids, count)
    ensures UniqueIssued(ids + [StrokeId(count)], count + 1)
  {
    var newId := StrokeId(count);
    StrokeIdRoundTrip(count);
    assert !IssuedBelow(newId, count);
    assert newId !in multiset(ids);
    assert multiset(ids + [newId]) == multiset(ids) + multiset{newId};
    forall id | id in multiset(ids + [newId]) ensures IssuedBelow(id, count + 1) {
      if id != newId {
        assert id in multiset(ids);
      }
    }
  }

  /** Under the invariant, the identifiers in use are pairwise distinct. */
  lemma UniqueIssuedDistinct(ids: seq<string>, count: nat, i: nat, j: nat)
    requires UniqueIssued(ids, count)
    requires i < j < |ids|
    ensures ids[i] != ids[j]
  {
    assert ids == ids[..j] + [ids[j]] + ids[j + 1..];
    assert multiset(ids) == multiset(ids[..j]) + multiset{ids[j]} + multiset(ids[j + 1..]);
    assert ids[..j][i] == ids[i];
    assert multiset(ids[..j])[ids[i]] >= 1;
    assert multiset(ids)[ids[j]] >= multiset(ids[..j])[ids[j]] + 1;
  }
}
