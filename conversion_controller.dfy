/** The four request handlers over the conversion cache. Each conversion
    handler validates its input (400 on failure), looks the key up (a hit is
    answered with `cached: true`), and on a miss converts, saves and answers
    with `cached: false`; an error thrown on the way is answered with 500 and
    its message. */
module ConversionController {
  import opened Results
  import opened ConversionModel
  import opened DbService
  import Service = ConversionService
  import Numerals = RomanNumerals
  import JsNumbers

  const NumberInputMessage := "Input must be a number between 1 and 3999"

  /** The JSON bodies the handlers answer with. */
  datatype Body =
    | Converted(inputValue: Json, convertedValue: Json, cached: bool)
    | Error(error: string)
    | Listing(conversions: seq<Conversion>)
    | Cleared(success: bool, message: string)
    | ClearFailed(success: bool, error: string)

  datatype Response = Response(status: int, body: Body)

  /** The message of a successful bulk delete. */
  function DeletedMessage(count: nat): string {
    "Successfully deleted " + JsNumbers.FromNumber(count) + " records"
  }

  /** A record holds the correct conversion of its key. */
  ghost predicate Correct(c: Conversion) {
    match c.kind
    case ArabicToRoman =>
      Service.IsValidNumber(c.inputValue)
      && c.convertedValue == JsonString(Numerals.Roman(Service.NumericValue(c.inputValue)))
    case RomanToArabic =>
      Service.IsValidRoman(c.inputValue) && Numerals.Upper(c.inputValue) == c.inputValue
      && c.convertedValue == JsonNumber(Service.ToArabic(c.inputValue).value)
  }

  ghost predicate Coherent(rs: seq<Conversion>) {
    forall c | c in rs :: Correct(c)
  }

  /** Saving a correct record, or nothing, keeps every cached answer correct. */
  lemma CoherentAfterSave(before: seq<Conversion>, after: seq<Conversion>)
    requires Coherent(before)
    requires after == before || (|after| == |before| + 1 && after[..|before|] == before
                                 && Correct(after[|before|]))
    ensures Coherent(after)
  {
    if after != before {
      forall c | c in after
        ensures Correct(c)
      {
        SavedOrKept(before, after, c);
      }
    }
  }

  /** The record the miss path of GET /arabic saves is correct: its key is
      already upper case and accepted, and its value is the conversion of
      the key as well as of the input. */
  lemma ArabicRecordCorrect(inputValue: string, createdAt: nat)
    requires Service.IsValidRoman(inputValue)
    ensures Correct(Conversion(Numerals.Upper(inputValue),
                               JsonNumber(Service.ToArabic(inputValue).value),
                               RomanToArabic, createdAt))
  {
    Service.CaseInsensitive(inputValue);
    Numerals.UpperIdempotent(inputValue);
  }

  /** After an append, a record is an old one or the appended one. */
  lemma SavedOrKept(before: seq<Conversion>, after: seq<Conversion>, c: Conversion)
    requires |after| == |before| + 1 && after[..|before|] == before && c in after
    ensures c in before || c == after[|before|]
  {
    assert after == before + [after[|before|]];
  }

  class Controller {
    const store: ConversionStore

    /** The store's own invariant, and every cached answer is correct. */
    ghost predicate Valid()
      reads this, store
    {
      store.Valid() && Coherent(store.records)
    }

    constructor (store: ConversionStore)
      requires store.Valid() && Coherent(store.records)
      ensures Valid() && this.store == store
    {
      this.store := store;
    }

    /** GET /roman/:inputValue */
    method ConvertToRoman(inputValue: string, lookup: StorageCall, write: StorageCall)
      returns (resp: Response)
      requires Valid()
      modifies store
      ensures Valid()
      ensures !Service.IsValidNumber(inputValue) ==>
        resp == Response(400, Error(NumberInputMessage)) && unchanged(store)
      ensures Service.IsValidNumber(inputValue) ==>
        var n := Service.NumericValue(inputValue);
        var found := Find(old(store.records), Key(inputValue, ArabicToRoman));
        if lookup.Succeeds? && found.Some? then
          resp == Response(200, Converted(JsonNumber(n), found.value.convertedValue, true))
          && unchanged(store)
        else if write.Fails? then
          resp == Response(500, Error(write.message)) && unchanged(store)
        else
          resp == Response(200, Converted(JsonNumber(n), JsonString(Numerals.Roman(n)), false))
          && store.records == old(store.records)
               + (if found.Some? then []
                  else [Conversion(inputValue, JsonString(Numerals.Roman(n)), ArabicToRoman,
                                   old(store.clock))])
      ensures resp.status == 200 ==>
        Service.IsValidNumber(inputValue) && resp.body.Converted?
        && resp.body.convertedValue
           == JsonString(Numerals.Roman(Service.NumericValue(inputValue)))
    {
      if !Service.IsValidNumber(inputValue) {
        return Response(400, Error(NumberInputMessage));
      }
      var numericValue := Service.NumericValue(inputValue);
      var cached := store.GetCachedConversion(inputValue, ArabicToRoman, lookup);
      if cached.Some? {
        FindUnique(store.records, cached.value);
        return Response(200, Converted(JsonNumber(numericValue), cached.value.convertedValue, true));
      }
      resp := ConvertAndSaveRoman(inputValue, write);
    }

    /** The miss path of GET /roman/:inputValue: convert, save, answer with
        `cached: false`; a failed save is answered with 500. */
    method ConvertAndSaveRoman(inputValue: string, write: StorageCall) returns (resp: Response)
      requires Valid() && Service.IsValidNumber(inputValue)
      modifies store
      ensures Valid()
      ensures
        var n := Service.NumericValue(inputValue);
        var found := Find(old(store.records), Key(inputValue, ArabicToRoman));
        if write.Fails? then
          resp == Response(500, Error(write.message)) && unchanged(store)
        else
          resp == Response(200, Converted(JsonNumber(n), JsonString(Numerals.Roman(n)), false))
          && store.records == old(store.records)
               + (if found.Some? then []
                  else [Conversion(inputValue, JsonString(Numerals.Roman(n)), ArabicToRoman,
                                   old(store.clock))])
    {
      var numericValue := Service.NumericValue(inputValue);
      var roman := Service.ArabicToRoman(numericValue);
      match roman
      case Err(message) =>
        resp := Response(500, Error(message));
      case Ok(romanValue) =>
        ghost var before := store.records;
        var saved := store.SaveConversion(inputValue, JsonString(romanValue), ArabicToRoman, write);
        CoherentAfterSave(before, store.records);
        match saved
        case Err(message) =>
          resp := Response(500, Error(message));
        case Ok(_) =>
          resp := Response(200, Converted(JsonNumber(numericValue), JsonString(romanValue), false));
    }

    /** GET /arabic/:inputValue */
    method ConvertToArabic(inputValue: string, lookup: StorageCall, write: StorageCall)
      returns (resp: Response)
      requires Valid()
      modifies store
      ensures Valid()
      ensures !Service.IsValidRoman(inputValue) ==>
        resp == Response(400, Error(Service.InvalidRomanMessage)) && unchanged(store)
      ensures Service.IsValidRoman(inputValue) ==>
        var key := Numerals.Upper(inputValue);
        var n := Service.ToArabic(inputValue).value;
        var found := Find(old(store.records), Key(key, RomanToArabic));
        if lookup.Succeeds? && found.Some? then
          resp == Response(200, Converted(JsonString(key), found.value.convertedValue, true))
          && unchanged(store)
        else if write.Fails? then
          resp == Response(500, Error(write.message)) && unchanged(store)
        else
          resp == Response(200, Converted(JsonString(key), JsonNumber(n), false))
          && store.records == old(store.records)
               + (if found.Some? then []
                  else [Conversion(key, JsonNumber(n), RomanToArabic, old(store.clock))])
      ensures resp.status == 200 ==>
        Service.IsValidRoman(inputValue) && resp.body.Converted?
        && resp.body.inputValue == JsonString(Numerals.Upper(inputValue))
        && resp.body.convertedValue == JsonNumber(Service.ToArabic(inputValue).value)
    {
      if !Service.IsValidRoman(inputValue) {
        return Response(400, Error(Service.InvalidRomanMessage));
      }
      var key := Numerals.Upper(inputValue);
      Service.CaseInsensitive(inputValue);
      Numerals.UpperIdempotent(inputValue);
      var cached := store.GetCachedConversion(key, RomanToArabic, lookup);
      if cached.Some? {
        FindUnique(store.records, cached.value);
        return Response(200, Converted(JsonString(key), cached.value.convertedValue, true));
      }
      resp := ConvertAndSaveArabic(inputValue, write);
    }

    /** The miss path of GET /arabic/:inputValue: convert, save under the
        upper-cased numeral, answer with `cached: false`; a failed save is
        answered with 500. */
    method ConvertAndSaveArabic(inputValue: string, write: StorageCall) returns (resp: Response)
      requires Valid() && Service.IsValidRoman(inputValue)
      modifies store
      ensures Valid()
      ensures
        var key := Numerals.Upper(inputValue);
        var n := Service.ToArabic(inputValue).value;
        var found := Find(old(store.records), Key(key, RomanToArabic));
        if write.Fails? then
          resp == Response(500, Error(write.message)) && unchanged(store)
        else
          resp == Response(200, Converted(JsonString(key), JsonNumber(n), false))
          && store.records == old(store.records)
               + (if found.Some? then []
                  else [Conversion(key, JsonNumber(n), RomanToArabic, old(store.clock))])
    {
      var key := Numerals.Upper(inputValue);
      var arabic := Service.RomanToArabic(inputValue);
      match arabic
      case Err(message) =>
        resp := Response(500, Error(message));
      case Ok(arabicValue) =>
        ArabicRecordCorrect(inputValue, store.clock);
        ghost var before := store.records;
        var saved := store.SaveConversion(key, JsonNumber(arabicValue), RomanToArabic, write);
        CoherentAfterSave(before, store.records);
        match saved
        case Err(message) =>
          resp := Response(500, Error(message));
        case Ok(_) =>
          resp := Response(200, Converted(JsonString(key), JsonNumber(arabicValue), false));
    }

    /** GET /all: the listing never fails, a storage failure reads as empty. */
    method GetAll(storage: StorageCall) returns (resp: Response)
      requires Valid()
      ensures resp.status == 200 && resp.body.Listing?
      ensures storage.Fails? ==> resp.body.conversions == []
      ensures storage.Succeeds? ==> multiset(resp.body.conversions) == multiset(store.records)
      ensures forall i, j | 0 <= i < j < |resp.body.conversions| ::
        resp.body.conversions[i].createdAt > resp.body.conversions[j].createdAt
    {
      var conversions := store.GetAllConversions(storage);
      return Response(200, Listing(conversions));
    }

    /** DELETE /remove */
    method RemoveAll(storage: StorageCall, countReported: bool) returns (resp: Response)
      requires Valid()
      modifies store
      ensures Valid()
      ensures storage.Fails? ==>
        resp == Response(500, ClearFailed(false, storage.message)) && unchanged(store)
      ensures storage.Succeeds? ==>
        resp == Response(200, Cleared(true, DeletedMessage(
                  if countReported then |old(store.records)| else 0)))
        && store.records == []
    {
      var deleted := store.RemoveAllConversions(storage, countReported);
      match deleted
      case Err(message) =>
        resp := Response(500, ClearFailed(false, message));
      case Ok(deletedCount) =>
        resp := Response(200, Cleared(true, DeletedMessage(deletedCount)));
    }
  }

  /** A key that was cached, or whose record was just appended, is found. */
  lemma CachedAfter(before: seq<Conversion>, after: seq<Conversion>, key: Key)
    requires Find(before, key).Some? ==> after == before
    requires Find(before, key).None? ==> |after| > 0 && after[..|after| - 1] == before
                                         && after[|after| - 1].KeyOf() == key
    ensures Find(after, key).Some?
  {
    if Find(before, key).Some? {
      assert Find(after, key).Some?;
    } else {
      assert after[|after| - 1] in after;
    }
  }

  /** Two identical valid requests in a row against a working store: the
      first is a hit only when the key was already cached, the second is
      always a hit, and both carry the same converted value. */
  method ConvertToRomanTwice(controller: Controller, inputValue: string)
    returns (first: Response, second: Response)
    requires controller.Valid() && Service.IsValidNumber(inputValue)
    modifies controller.store
    ensures controller.Valid()
    ensures first.status == 200 && first.body.Converted?
    ensures second.status == 200 && second.body.Converted?
    ensures first.body.cached
      <==> Find(old(controller.store.records), Key(inputValue, ArabicToRoman)).Some?
    ensures second.body.cached
    ensures first.body.inputValue == second.body.inputValue
            == JsonNumber(Service.NumericValue(inputValue))
    ensures first.body.convertedValue == second.body.convertedValue
            == JsonString(Numerals.Roman(Service.NumericValue(inputValue)))
    ensures forall c | c in controller.store.records ::
      c in old(controller.store.records) || c.KeyOf() == Key(inputValue, ArabicToRoman)
  {
    ghost var key := Key(inputValue, ArabicToRoman);
    first := controller.ConvertToRoman(inputValue, Succeeds, Succeeds);
    CachedAfter(old(controller.store.records), controller.store.records, key);
    second := controller.ConvertToRoman(inputValue, Succeeds, Succeeds);
  }

  /** The same for Roman input, whose key is the upper-cased numeral: a
      request in one case is answered from the cache filled by the other. */
  method ConvertToArabicTwice(controller: Controller, inputValue: string, again: string)
    returns (first: Response, second: Response)
    requires controller.Valid() && Service.IsValidRoman(inputValue)
    requires Numerals.Upper(again) == Numerals.Upper(inputValue)
    modifies controller.store
    ensures controller.Valid()
    ensures first.status == 200 && first.body.Converted?
    ensures second.status == 200 && second.body.Converted?
    ensures first.body.cached
      <==> Find(old(controller.store.records), Key(Numerals.Upper(inputValue), RomanToArabic)).Some?
    ensures second.body.cached
    ensures first.body.convertedValue == second.body.convertedValue
  {
    ghost var key := Key(Numerals.Upper(inputValue), RomanToArabic);
    first := controller.ConvertToArabic(inputValue, Succeeds, Succeeds);
    CachedAfter(old(controller.store.records), controller.store.records, key);
    Service.CaseInsensitive(inputValue);
    Service.CaseInsensitive(again);
    second := controller.ConvertToArabic(again, Succeeds, Succeeds);
  }

  /** GET /roman/10 reads its input as 10, whose numeral is X. */
  lemma TenIsX()
    ensures Service.IsValidNumber("10") && Service.NumericValue("10") == 10
    ensures Numerals.Roman(10) == "X"
  {
    assert JsNumbers.FromNumber(10) == "10";
    JsNumbers.NumberOfDecimal(10);
    assert Numerals.DigitsOf(10) == Numerals.Digits(0, 0, 1, 0);
  }

  /** GET /arabic/X reads its input as the numeral of 10. */
  lemma XIsTen()
    ensures Service.IsValidRoman("X") && Numerals.Upper("X") == "X"
    ensures Service.ToArabic("X") == Ok(10)
  {
    assert Numerals.Upper("X") == "X";
    assert Numerals.Roman(10) == "X" by {
      assert Numerals.DigitsOf(10) == Numerals.Digits(0, 0, 1, 0);
    }
    Service.RoundTrip(10);
  }

  /** GET /roman/abc does not read as a number. */
  lemma AbcIsNotANumber()
    ensures !Service.IsValidNumber("abc")
  {
    assert !JsNumbers.AllDigits("abc") by {
      assert !JsNumbers.IsDigit("abc"[0]);
    }
    assert JsNumbers.ToNumber("abc") == None;
  }

  /** A session on an empty cache: GET /roman/10 is a miss that caches X,
      and GET /arabic/X is a miss all the same, because the cache is keyed by
      input and direction. */
  method ExampleSession() returns (ten: Response, ex: Response)
    ensures ten == Response(200, Converted(JsonNumber(10), JsonString("X"), false))
    ensures ex == Response(200, Converted(JsonString("X"), JsonNumber(10), false))
  {
    var tenText, x := "10", "X";
    var store := new ConversionStore();
    var controller := new Controller(store);
    TenIsX();
    ten := controller.ConvertToRoman(tenText, Succeeds, Succeeds);
    assert Find(store.records, Key(x, RomanToArabic)).None?;
    XIsTen();
    ex := controller.ConvertToArabic(x, Succeeds, Succeeds);
  }

  /** GET /roman/abc is refused with 400 whatever the cache holds, and the
      cache is left as it was. */
  method RefusedInput(controller: Controller) returns (abc: Response)
    requires controller.Valid()
    modifies controller.store
    ensures abc == Response(400, Error(NumberInputMessage))
    ensures unchanged(controller.store)
  {
    var abcText := "abc";
    AbcIsNotANumber();
    abc := controller.ConvertToRoman(abcText, Succeeds, Succeeds);
  }
}
