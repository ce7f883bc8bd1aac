/** The stored conversion record and its unique key. */
module ConversionModel {

  /** The direction of a conversion: 'arabic-to-roman' or 'roman-to-arabic'. */
  datatype ConversionType = ArabicToRoman | RomanToArabic

  /** A JSON scalar: the stored converted value is a string (a numeral) or a
      number, and so is a response's input value. */
  datatype Json = JsonString(str: string) | JsonNumber(num: int)

  /** The unique index of the collection: input value and type. */
  datatype Key = Key(inputValue: string, kind: ConversionType)

  /** One memoised conversion. `createdAt` is set when the record is inserted
      and never changes. */
  datatype Conversion = Conversion(
    inputValue: string,
    convertedValue: Json,
    kind: ConversionType,
    createdAt: nat)
  {
    function KeyOf(): Key {
      Key(inputValue, kind)
    }
  }

  /** At most one record per key. */
  predicate UniqueKeys(rs: seq<Conversion>) {
    forall i, j | 0 <= i < j < |rs| :: rs[i].KeyOf() != rs[j].KeyOf()
  }
}
