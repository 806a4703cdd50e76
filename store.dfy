/**
 * The SQLite store of internal/store/store.go as two finite maps: `entries` (hash to
 * expiration and path) and `ip_attempts` (client address to failed-attempt count). The clock
 * is a parameter; backend failures are not modelled.
 */
module Store {

  datatype Entry = Entry(expiration: int, path: string)

  /** Get's three results: the record, whether it is still active, whether it exists. */
  datatype Lookup = Lookup(record: Entry, active: bool, found: bool)

  /** Go's zero Entry, returned when no row matches. */
  const ZeroEntry: Entry := Entry(0, "")

  function LookupIn(entries: map<string, Entry>, hash: string, now: int): Lookup
  {
    if hash !in entries then Lookup(ZeroEntry, false, false)
    else if entries[hash].expiration <= now then Lookup(entries[hash], false, true)
    else Lookup(entries[hash], true, true)
  }

  /** A missing row reads as zero failed attempts. */
  function FailedAttempts(attempts: map<string, nat>, ip: string): nat
  {
    if ip in attempts then attempts[ip] else 0
  }

  /** INSERT ... VALUES (ip, 1) ON CONFLICT DO UPDATE SET failed_attempts = failed_attempts + 1. */
  function Incremented(attempts: map<string, nat>, ip: string): map<string, nat>
  {
    attempts[ip := FailedAttempts(attempts, ip) + 1]
  }

  /** After an upsert the hash reads back as the new entry; every other hash reads as before. */
  lemma LookupAfterAdd(entries: map<string, Entry>, hash: string, expiration: int, path: string,
                       other: string, now: int)
    ensures LookupIn(entries[hash := Entry(expiration, path)], hash, now)
         == Lookup(Entry(expiration, path), expiration > now, true)
    ensures other != hash ==>
      LookupIn(entries[hash := Entry(expiration, path)], other, now) == LookupIn(entries, other, now)
  {
  }

  /** An absent hash reads as the zero entry, neither active nor existing. */
  lemma LookupAbsent(entries: map<string, Entry>, hash: string, now: int)
    requires hash !in entries
    ensures LookupIn(entries, hash, now) == Lookup(Entry(0, ""), false, false)
  {
  }

  /** A present entry is active exactly while its expiration lies strictly after now. */
  lemma ActiveIffBeforeExpiration(entries: map<string, Entry>, hash: string, now: int)
    requires hash in entries
    ensures LookupIn(entries, hash, now).found
    ensures LookupIn(entries, hash, now).record == entries[hash]
    ensures LookupIn(entries, hash, now).active <==> now < entries[hash].expiration
  {
  }

  /** Delete removes only its hash; deleting an absent hash changes nothing. */
  lemma LookupAfterDelete(entries: map<string, Entry>, hash: string, other: string, now: int)
    ensures !LookupIn(entries - {hash}, hash, now).found
    ensures other != hash ==> LookupIn(entries - {hash}, other, now) == LookupIn(entries, other, now)
    ensures hash !in entries ==> entries - {hash} == entries
  {
  }

  /** An increment raises its own client's count by one and no other. */
  lemma CountAfterIncrement(attempts: map<string, nat>, ip: string, other: string)
    ensures FailedAttempts(Incremented(attempts, ip), ip) == FailedAttempts(attempts, ip) + 1
    ensures other != ip ==> FailedAttempts(Incremented(attempts, ip), other) == FailedAttempts(attempts, other)
  {
  }

  /** After an unban the client reads as unseen; every other client keeps its count. */
  lemma CountAfterReset(attempts: map<string, nat>, ip: string, other: string)
    ensures FailedAttempts(attempts - {ip}, ip) == 0
    ensures other != ip ==> FailedAttempts(attempts - {ip}, other) == FailedAttempts(attempts, other)
  {
  }

  class LinkStore {
    var entries: map<string, Entry>
    var attempts: map<string, nat>

    constructor ()
      ensures entries == map[] && attempts == map[]
    {
      entries := map[];
      attempts := map[];
    }

    /** Get: a read-only lookup of a hash at time now. */
    method Get(hash: string, now: int) returns (record: Entry, active: bool, found: bool)
      ensures Lookup(record, active, found) == LookupIn(entries, hash, now)
    {
      if hash !in entries {
        return ZeroEntry, false, false;
      }
      var entry := entries[hash];
      if entry.expiration <= now {
        return entry, false, true;
      }
      return entry, true, true;
    }

    /** Add: upsert, overwriting any earlier entry for the hash. */
    method Add(hash: string, expiration: int, path: string)
      modifies this
      ensures entries == old(entries)[hash := Entry(expiration, path)]
      ensures attempts == old(attempts)
    {
      entries := entries[hash := Entry(expiration, path)];
    }

    /** Delete: removes the hash if present; an absent hash is not an error. */
    method Delete(hash: string)
      modifies this
      ensures entries == old(entries) - {hash}
      ensures attempts == old(attempts)
    {
      entries := entries - {hash};
    }

    method IncrementFailedAttempts(ip: string)
      modifies this
      ensures attempts == Incremented(old(attempts), ip)
      ensures entries == old(entries)
    {
      if ip in attempts {
        attempts := attempts[ip := attempts[ip] + 1];
      } else {
        attempts := attempts[ip := 1];
      }
    }

    /** GetFailedAttempts: a read-only query; an unseen client has 0. */
    method GetFailedAttempts(ip: string) returns (count: nat)
      ensures count == FailedAttempts(attempts, ip)
    {
      if ip !in attempts {
        return 0;
      }
      return attempts[ip];
    }

    /** ResetFailedAttempts: the administrative unban deletes the client's row. */
    method ResetFailedAttempts(ip: string)
      modifies this
      ensures attempts == old(attempts) - {ip}
      ensures entries == old(entries)
    {
      attempts := attempts - {ip};
    }
  }
}
