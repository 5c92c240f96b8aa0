/**
 * County keys ("fips") of the census population table and the keyed
 * population index joined onto the case/death rows.
 */
module Fips {
  import opened Wrappers
  import opened Format

  /** One row of the census table: STATE, COUNTY and POPESTIMATE2019. */
  datatype PopRecord = PopRecord(state: int, county: int, estimate: int)

  /** The five-character key: the state code in two digits, then the county code in three. */
  function FipsKey(state: int, county: int): string {
    FormatInt(state, 2) + FormatInt(county, 3)
  }

  function RecordFips(r: PopRecord): string {
    FipsKey(r.state, r.county)
  }

  /** Reads a key back as (state, county); None unless it is five decimal digits. */
  function DecodeFips(k: string): (r: Option<(nat, nat)>)
    ensures r.Some? <==> |k| == 5 && AllDigits(k)
    ensures r.Some? ==> r.value.0 < 100 && r.value.1 < 1000
  {
    if |k| == 5 && AllDigits(k) then
      DigitsBound(k[..2]);
      DigitsBound(k[2..]);
      Some((ParseDigits(k[..2]), ParseDigits(k[2..])))
    else None
  }

  lemma {:induction false} DigitsBound(s: string)
    requires AllDigits(s)
    ensures ParseDigits(s) < Pow10(|s|)
    decreases |s|
  {
    if s != [] {
      DigitsBound(s[..|s| - 1]);
    }
  }

  /** In range, the key is five digits and decodes to the codes it was built from. */
  lemma FipsKeyRoundTrip(state: int, county: int)
    requires 0 <= state < 100 && 0 <= county < 1000
    ensures |FipsKey(state, county)| == 5 && AllDigits(FipsKey(state, county))
    ensures DecodeFips(FipsKey(state, county)) == Some((state, county))
  {
    var a, b := FormatInt(state, 2), FormatInt(county, 3);
    assert Pow10(2) == 100 && Pow10(3) == 1000;
    var k := a + b;
    assert k[..2] == a && k[2..] == b;
  }

  /** Distinct in-range (state, county) pairs never share a key. */
  lemma FipsKeyInjective(s1: int, c1: int, s2: int, c2: int)
    requires 0 <= s1 < 100 && 0 <= c1 < 1000
    requires 0 <= s2 < 100 && 0 <= c2 < 1000
    ensures FipsKey(s1, c1) == FipsKey(s2, c2) <==> s1 == s2 && c1 == c2
  {
    FipsKeyRoundTrip(s1, c1);
    FipsKeyRoundTrip(s2, c2);
  }

  predicate UniqueFips(records: seq<PopRecord>) {
    forall i, j :: 0 <= i < j < |records| ==> RecordFips(records[i]) != RecordFips(records[j])
  }

  /**
   * Makes "fips" the key of the population table: fails with a repeated key
   * when two records share one, otherwise maps each key to its record's
   * estimate (PopIndexSpec states this).
   */
  function PopIndex(records: seq<PopRecord>): Result<map<string, int>, string>
    decreases |records|
  {
    if records == [] then Success(map[])
    else
      var rest := PopIndex(records[1..]);
      var k := RecordFips(records[0]);
      if rest.Failure? then rest
      else if k in rest.value then Failure(k)
      else Success(rest.value[k := records[0].estimate])
  }

  predicate HasKey(records: seq<PopRecord>, k: string) {
    exists i :: 0 <= i < |records| && RecordFips(records[i]) == k
  }

  predicate Repeated(records: seq<PopRecord>, k: string) {
    exists i, j :: 0 <= i < j < |records| && RecordFips(records[i]) == k == RecordFips(records[j])
  }

  lemma HasKeyTail(records: seq<PopRecord>, k: string)
    requires records != []
    ensures HasKey(records, k) <==> RecordFips(records[0]) == k || HasKey(records[1..], k)
  {
    if HasKey(records, k) && RecordFips(records[0]) != k {
      var i :| 0 <= i < |records| && RecordFips(records[i]) == k;
      assert records[1..][i - 1] == records[i];
    }
    if HasKey(records[1..], k) {
      var i :| 0 <= i < |records[1..]| && RecordFips(records[1..][i]) == k;
      assert records[i + 1] == records[1..][i];
    }
  }

  lemma RepeatedTail(records: seq<PopRecord>, k: string)
    requires records != []
    ensures Repeated(records[1..], k) ==> Repeated(records, k)
    ensures RecordFips(records[0]) == k && HasKey(records[1..], k) ==> Repeated(records, k)
  {
    if Repeated(records[1..], k) {
      var i, j :| 0 <= i < j < |records[1..]| && RecordFips(records[1..][i]) == k == RecordFips(records[1..][j]);
      assert records[i + 1] == records[1..][i] && records[j + 1] == records[1..][j];
      assert 0 <= i + 1 < j + 1 < |records| && RecordFips(records[i + 1]) == k == RecordFips(records[j + 1]);
    }
    if RecordFips(records[0]) == k && HasKey(records[1..], k) {
      var j :| 0 <= j < |records[1..]| && RecordFips(records[1..][j]) == k;
      assert records[j + 1] == records[1..][j];
      assert 0 <= 0 < j + 1 < |records| && RecordFips(records[0]) == k == RecordFips(records[j + 1]);
    }
  }

  lemma UniqueTail(records: seq<PopRecord>)
    requires records != []
    ensures UniqueFips(records) <==> UniqueFips(records[1..]) && !HasKey(records[1..], RecordFips(records[0]))
  {
    var k := RecordFips(records[0]);
    if UniqueFips(records) {
      forall i, j | 0 <= i < j < |records[1..]|
        ensures RecordFips(records[1..][i]) != RecordFips(records[1..][j])
      {
        assert records[1..][i] == records[i + 1] && records[1..][j] == records[j + 1];
      }
      forall j | 0 <= j < |records[1..]| ensures RecordFips(records[1..][j]) != k {
        assert records[1..][j] == records[j + 1];
      }
    }
    if UniqueFips(records[1..]) && !HasKey(records[1..], k) {
      forall i, j | 0 <= i < j < |records|
        ensures RecordFips(records[i]) != RecordFips(records[j])
      {
        assert records[1..][j - 1] == records[j];
        if i > 0 {
          assert records[1..][i - 1] == records[i];
        }
      }
    }
  }

  /**
   * Setting the key succeeds exactly when no two records share a fips; a
   * failure names a repeated key; on success every record's key maps to its
   * estimate and there is no other key.
   */
  lemma {:induction false} PopIndexSpec(records: seq<PopRecord>)
    ensures PopIndex(records).Success? <==> UniqueFips(records)
    ensures PopIndex(records).Failure? ==> Repeated(records, PopIndex(records).error)
    ensures PopIndex(records).Success? ==>
      forall k :: k in PopIndex(records).value <==> HasKey(records, k)
    ensures PopIndex(records).Success? ==>
      forall i :: 0 <= i < |records| ==>
        RecordFips(records[i]) in PopIndex(records).value &&
        PopIndex(records).value[RecordFips(records[i])] == records[i].estimate
    decreases |records|
  {
    if records != [] {
      var rest := PopIndex(records[1..]);
      var k := RecordFips(records[0]);
      PopIndexSpec(records[1..]);
      UniqueTail(records);
      if rest.Failure? {
        RepeatedTail(records, rest.error);
      } else if k in rest.value {
        RepeatedTail(records, k);
      } else {
        forall k' ensures k' in PopIndex(records).value <==> HasKey(records, k') {
          HasKeyTail(records, k');
        }
        forall i | 0 <= i < |records|
          ensures RecordFips(records[i]) in PopIndex(records).value
          ensures PopIndex(records).value[RecordFips(records[i])] == records[i].estimate
        {
          if i > 0 {
            assert records[1..][i - 1] == records[i];
          }
        }
      }
    }
  }
}
