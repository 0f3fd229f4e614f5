/**
 * internal/models-services/add_key: the collection of upstream API keys.
 *
 * The collection is a sequence of records in storage order; `Find` walks it
 * front to back and `UpdateOne` changes the first record whose `key`
 * matches. The clock is the `now` parameter and the upstream probe
 * `IsKeyValid` is the `isKeyValid` parameter.
 */
module ApiKeys {
  import opened Wrappers
  import opened Entities
  import Configs

  /** 24 hours as a Go `time.Duration` (nanoseconds). */
  const Cooldown: int := 24 * 60 * 60 * 1_000_000_000

  /** "no valid key found" */
  datatype KeyError = NoValidKey

  /** A driver error on a write. */
  datatype StoreError = WriteFailed

  predicate UniqueKeys(records: seq<ApiKey>)
  {
    forall i, j :: 0 <= i < j < |records| ==> records[i].key != records[j].key
  }

  /** Position of the first record `Find({isExpired: false})` yields. */
  function FirstValid(records: seq<ApiKey>): (r: Option<nat>)
    ensures r.Some? ==> r.value < |records| && !records[r.value].isExpired
    ensures r.Some? ==> forall j :: 0 <= j < r.value ==> records[j].isExpired
    ensures r.None? ==> forall j :: 0 <= j < |records| ==> records[j].isExpired
  {
    if records == [] then None
    else if !records[0].isExpired then Some(0)
    else
      match FirstValid(records[1..])
      case None => None
      case Some(i) => Some(i + 1)
  }

  /** Position of the first record whose key is `key`: the one `UpdateOne({key: key}, …)` changes. */
  function KeyIndex(records: seq<ApiKey>, key: string): (r: Option<nat>)
    ensures r.Some? ==> r.value < |records| && records[r.value].key == key
    ensures r.Some? ==> forall j :: 0 <= j < r.value ==> records[j].key != key
    ensures r.None? ==> forall j :: 0 <= j < |records| ==> records[j].key != key
  {
    if records == [] then None
    else if records[0].key == key then Some(0)
    else
      match KeyIndex(records[1..], key)
      case None => None
      case Some(i) => Some(i + 1)
  }

  /**
   * GetValidKey's answer: the cached key when there is one, otherwise the
   * key of the first record that is not expired.
   */
  function ValidKey(cached: string, records: seq<ApiKey>): Result<string, KeyError>
  {
    if cached != "" then Success(cached)
    else
      match FirstValid(records)
      case Some(i) => Success(records[i].key)
      case None => Failure(NoValidKey)
  }

  /**
   * `UpdateOne({key: key}, {$set: {isExpired: expired, lastUpdated: now}})`:
   * the first record with that key gets the flag and the time, every other
   * record is unchanged, and an absent key changes nothing.
   */
  function MarkFirst(records: seq<ApiKey>, key: string, expired: bool, now: int): (r: seq<ApiKey>)
    ensures |r| == |records|
    ensures forall j :: 0 <= j < |r| ==>
              r[j] == if KeyIndex(records, key) == Some(j) then ApiKey(key, expired, now) else records[j]
    ensures KeyIndex(records, key).None? ==> r == records
  {
    match KeyIndex(records, key)
    case None => records
    case Some(i) => records[i := ApiKey(key, expired, now)]
  }

  /** With distinct keys the record `MarkFirst` changes is exactly the one holding the key. */
  lemma MarkFirstUnique(records: seq<ApiKey>, key: string, expired: bool, now: int)
    requires UniqueKeys(records)
    ensures forall j :: 0 <= j < |records| ==>
              MarkFirst(records, key, expired, now)[j]
              == if records[j].key == key then ApiKey(key, expired, now) else records[j]
    ensures UniqueKeys(MarkFirst(records, key, expired, now))
  {
    var r := MarkFirst(records, key, expired, now);
    var k := KeyIndex(records, key);
    forall j | 0 <= j < |records|
      ensures r[j] == if records[j].key == key then ApiKey(key, expired, now) else records[j]
    {
      if records[j].key == key {
        assert records[k.value].key == records[j].key;
      }
    }
    assert forall j :: 0 <= j < |r| ==> r[j].key == records[j].key;
    forall i, j | 0 <= i < j < |r| ensures r[i].key != r[j].key {
      assert records[i].key != records[j].key;
    }
  }

  /** The cursor of `Find({isExpired: true})`, taken once, in storage order. */
  function Expired(records: seq<ApiKey>): (r: seq<ApiKey>)
    ensures forall c :: c in r <==> c in records && c.isExpired
  {
    if records == [] then []
    else if records[0].isExpired then [records[0]] + Expired(records[1..])
    else Expired(records[1..])
  }

  /** The 24-hour cooldown has passed, strictly. */
  predicate CooledDown(record: ApiKey, now: int)
  {
    now - record.lastUpdated > Cooldown
  }

  /**
   * One round of the revival loop for one expired record: the probe runs
   * only once the cooldown has passed, and a key that passes it is set back
   * to not expired by key.
   */
  function ReviveStep(records: seq<ApiKey>, c: ApiKey, now: int, isKeyValid: string -> bool): (r: seq<ApiKey>)
    ensures |r| == |records|
  {
    if CooledDown(c, now) && isKeyValid(c.key) then MarkFirst(records, c.key, false, now) else records
  }

  /** The revival loop over `candidates`, in cursor order. */
  function Revive(records: seq<ApiKey>, candidates: seq<ApiKey>, now: int, isKeyValid: string -> bool): (r: seq<ApiKey>)
    ensures |r| == |records|
  {
    if candidates == [] then records
    else
      var last := candidates[|candidates| - 1];
      ReviveStep(Revive(records, candidates[..|candidates| - 1], now, isKeyValid), last, now, isKeyValid)
  }

  /** The keys the revival loop hands to the validator, in order: only those whose cooldown has passed. */
  function Probes(candidates: seq<ApiKey>, now: int): (r: seq<string>)
    ensures forall k :: k in r ==> exists c :: c in candidates && CooledDown(c, now) && c.key == k
  {
    if candidates == [] then []
    else
      var last := candidates[|candidates| - 1];
      var earlier := Probes(candidates[..|candidates| - 1], now);
      if CooledDown(last, now) then earlier + [last.key] else earlier
  }

  /** The record a successful revival leaves: not expired, stamped with the revival time. */
  function Revived(record: ApiKey, now: int): ApiKey
  {
    ApiKey(record.key, false, now)
  }

  /**
   * What the revival pass evidently means to do: revive, in place, each
   * expired record whose cooldown has passed and whose key passes the probe,
   * and leave every other record alone.
   */
  function ReviveExpired(records: seq<ApiKey>, now: int, isKeyValid: string -> bool): (r: seq<ApiKey>)
    ensures |r| == |records|
    ensures forall i :: 0 <= i < |records| && !records[i].isExpired ==> r[i] == records[i]
    ensures forall i :: 0 <= i < |records| && records[i].isExpired && !CooledDown(records[i], now) ==> r[i] == records[i]
    ensures forall i :: 0 <= i < |records| && r[i] != records[i] ==> r[i] == Revived(records[i], now)
    ensures forall i :: 0 <= i < |records| && records[i].isExpired && CooledDown(records[i], now) ==>
      r[i] == if isKeyValid(records[i].key) then Revived(records[i], now) else records[i]
  {
    seq(|records|, i requires 0 <= i < |records| =>
      if records[i].isExpired && CooledDown(records[i], now) && isKeyValid(records[i].key)
      then Revived(records[i], now) else records[i])
  }

  /** Some candidate carrying `key` passes both the cooldown and the probe. */
  ghost predicate Approved(candidates: seq<ApiKey>, key: string, now: int, isKeyValid: string -> bool)
  {
    exists c :: c in candidates && c.key == key && CooledDown(c, now) && isKeyValid(c.key)
  }

  /** With distinct keys, a record ends revived exactly when some candidate with its key is approved. */
  lemma {:induction false} RevivePointwise(records: seq<ApiKey>, candidates: seq<ApiKey>, now: int, isKeyValid: string -> bool)
    requires UniqueKeys(records)
    ensures var r := Revive(records, candidates, now, isKeyValid);
      && |r| == |records| && UniqueKeys(r)
      && forall i :: 0 <= i < |records| ==>
           r[i] == if Approved(candidates, records[i].key, now, isKeyValid) then Revived(records[i], now) else records[i]
  {
    if candidates != [] {
      var front := candidates[..|candidates| - 1];
      var last := candidates[|candidates| - 1];
      assert candidates == front + [last];
      RevivePointwise(records, front, now, isKeyValid);
      var prev := Revive(records, front, now, isKeyValid);
      var r := Revive(records, candidates, now, isKeyValid);
      assert r == ReviveStep(prev, last, now, isKeyValid);
      if CooledDown(last, now) && isKeyValid(last.key) {
        MarkFirstUnique(prev, last.key, false, now);
      }
      forall i | 0 <= i < |records|
        ensures r[i] == if Approved(candidates, records[i].key, now, isKeyValid) then Revived(records[i], now) else records[i]
      {
        assert prev[i].key == records[i].key;
        if Approved(front, records[i].key, now, isKeyValid) {
          var c :| c in front && c.key == records[i].key && CooledDown(c, now) && isKeyValid(c.key);
          assert c in candidates;
        }
        if last.key == records[i].key && CooledDown(last, now) && isKeyValid(last.key) {
          assert Approved(candidates, records[i].key, now, isKeyValid);
        }
        if Approved(candidates, records[i].key, now, isKeyValid) {
          var c :| c in candidates && c.key == records[i].key && CooledDown(c, now) && isKeyValid(c.key);
          assert c in front || c == last;
        }
      }
    }
  }

  /**
   * With distinct keys, the revival pass as written does what it means to:
   * it equals ReviveExpired, so records that are not expired are untouched
   * and an expired record is revived exactly when its cooldown has passed
   * and the probe accepts its key.
   */
  lemma ReviveMatchesIntentWithUniqueKeys(records: seq<ApiKey>, now: int, isKeyValid: string -> bool)
    requires UniqueKeys(records)
    ensures Revive(records, Expired(records), now, isKeyValid) == ReviveExpired(records, now, isKeyValid)
  {
    var cands := Expired(records);
    RevivePointwise(records, cands, now, isKeyValid);
    var r := Revive(records, cands, now, isKeyValid);
    var e := ReviveExpired(records, now, isKeyValid);
    forall i | 0 <= i < |records|
      ensures r[i] == e[i]
    {
      if Approved(cands, records[i].key, now, isKeyValid) {
        var c :| c in cands && c.key == records[i].key && CooledDown(c, now) && isKeyValid(c.key);
        var j :| 0 <= j < |records| && records[j] == c;
        assert j == i;
      }
    }
  }

  /**
   * The cooldown gate, for distinct keys: an expired record marked at time T
   * is left as it is while now - T <= 24h whatever the validator says, and
   * once now - T > 24h it is revived exactly when the validator accepts it.
   */
  lemma CooldownGate(records: seq<ApiKey>, now: int, isKeyValid: string -> bool, i: nat)
    requires UniqueKeys(records) && i < |records| && records[i].isExpired
    ensures var r := Revive(records, Expired(records), now, isKeyValid);
      && (now - records[i].lastUpdated <= Cooldown ==> r[i] == records[i])
      && (now - records[i].lastUpdated > Cooldown && isKeyValid(records[i].key) ==> r[i] == ApiKey(records[i].key, false, now))
      && (!isKeyValid(records[i].key) ==> r[i] == records[i])
  {
    ReviveMatchesIntentWithUniqueKeys(records, now, isKeyValid);
  }

  /** For distinct keys, the revival pass never touches a record that is not expired. */
  lemma ReviveKeepsValidRecords(records: seq<ApiKey>, now: int, isKeyValid: string -> bool, i: nat)
    requires UniqueKeys(records) && i < |records| && !records[i].isExpired
    ensures Revive(records, Expired(records), now, isKeyValid)[i] == records[i]
  {
    ReviveMatchesIntentWithUniqueKeys(records, now, isKeyValid);
  }

  /**
   * Two records sharing a key (InsertKey does not prevent it): the expired
   * one is due for revival, but the update by key lands on the first record,
   * which was not expired; it gets a new `lastUpdated` and the expired record
   * stays expired.
   */
  lemma DuplicateKeyRevivalHitsWrongRecord()
    ensures var records := [ApiKey("k", false, 0), ApiKey("k", true, 0)];
            var now := Cooldown + 1;
            var valid := (k: string) => true;
      && Revive(records, Expired(records), now, valid) == [ApiKey("k", false, now), ApiKey("k", true, 0)]
      && ReviveExpired(records, now, valid) == [ApiKey("k", false, 0), ApiKey("k", false, now)]
  {
    var records := [ApiKey("k", false, 0), ApiKey("k", true, 0)];
    var now := Cooldown + 1;
    var valid := (k: string) => true;
    assert records[1..] == [ApiKey("k", true, 0)];
    assert Expired(records) == [ApiKey("k", true, 0)];
    assert Expired(records)[..0] == [];
    var e := ReviveExpired(records, now, valid);
    assert records[1].isExpired && CooledDown(records[1], now) && valid(records[1].key);
    assert e[1] == Revived(records[1], now);
    assert e[0] == ApiKey("k", false, 0) && e[1] == ApiKey("k", false, now);
  }

  /**
   * How the revival pass ends as the source runs it. Each record is decoded
   * into a generic document, where `lastUpdated` comes back as the driver's
   * datetime type; asserting it to be a Go time value fails on the first
   * record the cursor yields, so the pass panics before any update and the
   * process stops. `Finished` is the pass that sees no expired record.
   */
  datatype PassRun = Finished(records: seq<ApiKey>) | Crashed(records: seq<ApiKey>)

  /** The revival pass as written: it crashes exactly when the cursor of expired records is not empty. */
  function RevivalPassAsWritten(records: seq<ApiKey>): PassRun
  {
    if Expired(records) == [] then Finished(records) else Crashed(records)
  }

  /**
   * The pass as written crashes exactly when some record is expired, changes
   * no record either way, and so revives nothing: when it finishes, the
   * intended revival would not have changed anything either.
   */
  lemma RevivalPassCrashes(records: seq<ApiKey>, now: int, isKeyValid: string -> bool)
    ensures var r := RevivalPassAsWritten(records);
      && (r.Crashed? <==> exists i :: 0 <= i < |records| && records[i].isExpired)
      && r.records == records
      && (r.Finished? ==> ReviveExpired(records, now, isKeyValid) == records)
  {
    var cands := Expired(records);
    if cands != [] {
      assert cands[0] in cands;
      var i :| 0 <= i < |records| && records[i] == cands[0];
    } else {
      forall i | 0 <= i < |records| ensures !records[i].isExpired {
        assert records[i] in records;
      }
    }
  }

  /**
   * One expired key, due and approved: the pass as written crashes and the
   * record stays expired, where the intended revival brings it back.
   */
  lemma RevivalCrashLeavesDueKeyExpired()
    ensures var records := [ApiKey("k", true, 0)];
            var now := Cooldown + 1;
            var valid := (k: string) => true;
      && RevivalPassAsWritten(records) == Crashed([ApiKey("k", true, 0)])
      && ReviveExpired(records, now, valid) == [ApiKey("k", false, now)]
  {
    var records := [ApiKey("k", true, 0)];
    assert records[1..] == [];
    assert Expired(records) == [ApiKey("k", true, 0)];
  }

  class KeyStore {
    var records: seq<ApiKey>

    constructor ()
      ensures records == []
    {
      records := [];
    }

    /**
     * InsertKey: one new record {key, not expired, now} at the end; no check
     * for an existing record with that key. A driver failure leaves the
     * collection as it was.
     */
    method InsertKey(key: string, now: int, fault: bool) returns (r: Outcome<StoreError>)
      modifies this
      ensures fault ==> r == Fail(WriteFailed) && records == old(records)
      ensures !fault ==> r == Pass && records == old(records) + [ApiKey(key, false, now)]
    {
      if fault {
        return Fail(WriteFailed);
      }
      records := records + [ApiKey(key, false, now)];
      return Pass;
    }

    /**
     * GetValidKey: the cached key whenever one is cached, without looking
     * at the collection; otherwise the first record that is not expired, or
     * NoValidKey when every record is expired.
     */
    method GetValidKey(cfg: Configs.Config) returns (r: Result<string, KeyError>)
      ensures r == ValidKey(cfg.validApiKey, records)
      ensures cfg.validApiKey != "" ==> r == Success(cfg.validApiKey)
      ensures cfg.validApiKey == "" ==> (r.Success? <==> exists i :: 0 <= i < |records| && !records[i].isExpired)
      ensures cfg.validApiKey == "" && r.Success? ==>
                exists i :: 0 <= i < |records| && !records[i].isExpired && records[i].key == r.value
    {
      if cfg.GetValidApiKey() != "" {
        return Success(cfg.GetValidApiKey());
      }
      var i := 0;
      while i < |records|
        invariant 0 <= i <= |records|
        invariant forall j :: 0 <= j < i ==> records[j].isExpired
      {
        if !records[i].isExpired {
          assert FirstValid(records) == Some(i);
          return Success(records[i].key);
        }
        i := i + 1;
      }
      return Failure(NoValidKey);
    }

    /** SetKeyToExpired: the first record with the key becomes expired as of `now`. */
    method SetKeyToExpired(key: string, now: int)
      modifies this
      ensures records == MarkFirst(old(records), key, true, now)
    {
      records := MarkFirst(records, key, true, now);
    }

    /** SetKeyToNotExpired: the first record with the key becomes not expired as of `now`. */
    method SetKeyToNotExpired(key: string, now: int)
      modifies this
      ensures records == MarkFirst(old(records), key, false, now)
    {
      records := MarkFirst(records, key, false, now);
    }

    /**
     * UpdateExpirationOfExpiredKeys with each record's `lastUpdated` read as
     * the time it holds (the source's type assertion fails instead, see
     * RevivalPassAsWritten): walks the expired records found at the start;
     * for each whose cooldown has passed it consults the validator, and
     * revives the key when the validator accepts it. Returns the keys handed
     * to the validator, in order.
     */
    method UpdateExpirationOfExpiredKeys(now: int, isKeyValid: string -> bool) returns (probed: seq<string>)
      modifies this
      ensures records == Revive(old(records), Expired(old(records)), now, isKeyValid)
      ensures probed == Probes(Expired(old(records)), now)
    {
      var cursor := Expired(records);
      probed := [];
      var i := 0;
      while i < |cursor|
        invariant 0 <= i <= |cursor|
        invariant records == Revive(old(records), cursor[..i], now, isKeyValid)
        invariant probed == Probes(cursor[..i], now)
      {
        var c := cursor[i];
        assert cursor[..i + 1][..i] == cursor[..i];
        if CooledDown(c, now) {
          probed := probed + [c.key];
          if isKeyValid(c.key) {
            SetKeyToNotExpired(c.key, now);
          }
        }
        i := i + 1;
      }
      assert cursor[..i] == cursor;
    }
  }
}
