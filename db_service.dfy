/** The conversion cache: an in-memory collection of conversion records with a
    unique (input value, type) key. Whether a storage call succeeds is an
    argument of each operation, so that the fail-open read path (a failed
    lookup is a miss, a failed listing is empty) and the fail-loud write path
    (a failed insert or delete is an error) can both be stated. */
module DbService {
  import opened Results
  import opened ConversionModel

  /** The outcome the storage layer gives one call. */
  datatype StorageCall = Succeeds | Fails(message: string)

  /** The record with key `key`, if any. */
  function Find(rs: seq<Conversion>, key: Key): (r: Option<Conversion>)
    ensures r.Some? ==> r.value in rs && r.value.KeyOf() == key
    ensures r.None? ==> forall c | c in rs :: c.KeyOf() != key
  {
    if |rs| == 0 then None
    else if rs[0].KeyOf() == key then Some(rs[0])
    else Find(rs[1..], key)
  }

  /** Under the unique index, the record found is the only one with its key. */
  lemma {:induction false} FindUnique(rs: seq<Conversion>, c: Conversion)
    requires UniqueKeys(rs) && c in rs
    ensures Find(rs, c.KeyOf()) == Some(c)
  {
    if rs[0] != c {
      assert rs[0].KeyOf() != c.KeyOf() by {
        var j :| 0 <= j < |rs| && rs[j] == c;
        assert j != 0;
      }
      assert UniqueKeys(rs[1..]) by {
        forall i, j | 0 <= i < j < |rs[1..]|
          ensures rs[1..][i].KeyOf() != rs[1..][j].KeyOf()
        {
          assert rs[1..][i] == rs[i + 1] && rs[1..][j] == rs[j + 1];
        }
      }
      assert c in rs[1..] by {
        var j :| 0 <= j < |rs| && rs[j] == c;
        assert rs[1..][j - 1] == c;
      }
      FindUnique(rs[1..], c);
    }
  }

  /** The records, last one first. */
  function NewestFirst(rs: seq<Conversion>): seq<Conversion> {
    if |rs| == 0 then [] else [rs[|rs| - 1]] + NewestFirst(rs[..|rs| - 1])
  }

  /** Listing newest first reverses the insertion order. */
  lemma {:induction false} NewestFirstReverses(rs: seq<Conversion>)
    ensures |NewestFirst(rs)| == |rs|
    ensures forall i | 0 <= i < |rs| :: NewestFirst(rs)[i] == rs[|rs| - 1 - i]
  {
    if |rs| > 0 {
      NewestFirstReverses(rs[..|rs| - 1]);
    }
  }

  /** Listing newest first keeps every record, as often as it occurs. */
  lemma {:induction false} NewestFirstKeeps(rs: seq<Conversion>)
    ensures multiset(NewestFirst(rs)) == multiset(rs)
  {
    if |rs| > 0 {
      var front := rs[..|rs| - 1];
      NewestFirstKeeps(front);
      assert rs == front + [rs[|rs| - 1]];
    }
  }

  /** Listing the records newest first keeps every record, and orders them by
      creation time, descending, when they were inserted in ascending order. */
  lemma NewestFirstOrdered(rs: seq<Conversion>)
    requires forall i, j | 0 <= i < j < |rs| :: rs[i].createdAt < rs[j].createdAt
    ensures multiset(NewestFirst(rs)) == multiset(rs)
    ensures |NewestFirst(rs)| == |rs|
    ensures forall i, j | 0 <= i < j < |NewestFirst(rs)| ::
      NewestFirst(rs)[i].createdAt > NewestFirst(rs)[j].createdAt
  {
    NewestFirstKeeps(rs);
    NewestFirstReverses(rs);
  }

  class ConversionStore {
    /** The records, in insertion order. */
    var records: seq<Conversion>
    /** The clock that stamps `createdAt`: a logical time that advances on
        every insert. */
    var clock: nat

    ghost predicate Valid()
      reads this
    {
      && UniqueKeys(records)
      && (forall i, j | 0 <= i < j < |records| :: records[i].createdAt < records[j].createdAt)
      && (forall i | 0 <= i < |records| :: records[i].createdAt < clock)
    }

    constructor ()
      ensures Valid() && records == []
    {
      records := [];
      clock := 0;
    }

    /** Point lookup on the unique key; a storage failure reads as a miss. */
    method GetCachedConversion(inputValue: string, kind: ConversionType, storage: StorageCall)
      returns (r: Option<Conversion>)
      requires Valid()
      ensures storage.Fails? ==> r == None
      ensures storage.Succeeds? ==>
        (r.Some? <==> exists c | c in records :: c.KeyOf() == Key(inputValue, kind))
      ensures r.Some? ==> r.value in records && r.value.KeyOf() == Key(inputValue, kind)
      ensures r.Some? ==> r == Find(records, Key(inputValue, kind))
    {
      if storage.Fails? {
        return None;
      }
      r := Find(records, Key(inputValue, kind));
    }

    /** Inserts a record stamped with the current time. When the key is
        already present the unique index refuses the insert and the existing
        record is returned instead; any other storage failure is an error. */
    method SaveConversion(inputValue: string, convertedValue: Json, kind: ConversionType,
                          storage: StorageCall)
      returns (r: Result<Conversion, string>)
      requires Valid()
      modifies this
      ensures Valid()
      ensures storage.Fails? ==>
        r == Err(storage.message) && unchanged(this)
      ensures storage.Succeeds? && Find(old(records), Key(inputValue, kind)).Some? ==>
        r == Ok(Find(old(records), Key(inputValue, kind)).value)
        && unchanged(this)
      ensures storage.Succeeds? && Find(old(records), Key(inputValue, kind)).None? ==>
        r == Ok(Conversion(inputValue, convertedValue, kind, old(clock)))
        && records == old(records) + [r.value] && clock == old(clock) + 1
    {
      if storage.Fails? {
        return Err(storage.message);
      }
      var existing := Find(records, Key(inputValue, kind));
      if existing.Some? {
        return Ok(existing.value);
      }
      var conversion := Conversion(inputValue, convertedValue, kind, clock);
      records := records + [conversion];
      clock := clock + 1;
      return Ok(conversion);
    }

    /** All records, newest first; a storage failure reads as an empty list. */
    method GetAllConversions(storage: StorageCall) returns (rs: seq<Conversion>)
      requires Valid()
      ensures storage.Fails? ==> rs == []
      ensures storage.Succeeds? ==> multiset(rs) == multiset(records)
      ensures forall i, j | 0 <= i < j < |rs| :: rs[i].createdAt > rs[j].createdAt
    {
      if storage.Fails? {
        return [];
      }
      NewestFirstOrdered(records);
      rs := NewestFirst(records);
    }

    /** Deletes every record and returns how many were deleted, or 0 when the
        storage does not report a count; a storage failure is an error and
        deletes nothing. */
    method RemoveAllConversions(storage: StorageCall, countReported: bool)
      returns (r: Result<nat, string>)
      requires Valid()
      modifies this
      ensures Valid()
      ensures storage.Fails? ==>
        r == Err(storage.message) && unchanged(this)
      ensures storage.Succeeds? ==>
        r == Ok(if countReported then |old(records)| else 0)
        && records == [] && clock == old(clock)
    {
      if storage.Fails? {
        return Err(storage.message);
      }
      var deletedCount := |records|;
      records := [];
      return Ok(if countReported then deletedCount else 0);
    }
  }
}
