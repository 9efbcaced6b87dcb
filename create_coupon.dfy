/** `CreateCoupon::handleRecordCreation`: the form data of the create page
    becomes one coupon, or several with generated codes. The form data is a
    map from field names to values; `Str::random(10)` is the oracle `random`,
    whose `i`-th answer is the code of the `i`-th record. */
module CreateCoupon {
  import opened Options
  import opened Str
  import opened NumericString

  /** A form value. */
  datatype Value =
    | VNull
    | VBool(b: bool)
    | VInt(i: int)
    | VText(s: string)
    | VArray(items: seq<Value>)

  type FormData = map<string, Value>

  /** The failure of reading a key the data lacks: Laravel turns PHP's
      "Undefined array key" warning into an `ErrorException`. */
  datatype CreationError = UndefinedArrayKey(key: string)

  const CountField: string := "number_of_coupons"
  const CodeField: string := "code"

  /** The characters `Str::random` draws from. */
  predicate IsAlphaNumeric(c: char)
  {
    IsUpper(c) || IsLower(c) || IsDigit(c)
  }

  /** What `Str::random(10)` returns: ten letters or digits. */
  type RandomCode = s: string | |s| == 10 && forall i :: 0 <= i < |s| ==> IsAlphaNumeric(s[i])
    witness "0000000000"

  // ---- PHP's (int) cast ----

  /** `(int)` of a form value. */
  function IntCast(v: Value): int
  {
    match v
    case VNull => 0
    case VBool(b) => if b then 1 else 0
    case VInt(i) => i
    case VText(s) => StringToInt(s)
    case VArray(items) => if items == [] then 0 else 1
  }

  // ---- handleRecordCreation ----

  /** `max(1, (int) ($data['number_of_coupons'] ?? 1))`: a missing or null
      count means one record, and a count below one is raised to one. */
  function Count(data: FormData): (n: nat)
    ensures n >= 1
    ensures CountField !in data || data[CountField] == VNull ==> n == 1
    ensures CountField in data && data[CountField] != VNull ==>
              n == if IntCast(data[CountField]) > 1 then IntCast(data[CountField]) else 1
  {
    var requested := if CountField in data && data[CountField] != VNull then IntCast(data[CountField]) else 1;
    if requested > 1 then requested else 1
  }

  /** The code the `i`-th record gets: a generated one when several records
      are made, else the submitted one. */
  function CodeFor(data: FormData, random: nat -> RandomCode, i: nat): Value
    requires Count(data) > 1 || CodeField in data
  {
    if Count(data) > 1 then VText(random(i)) else data[CodeField]
  }

  /** The data the `i`-th record is created from: the submitted data without
      the count, with the code of that record. */
  function Created(data: FormData, random: nat -> RandomCode, i: nat): FormData
    requires Count(data) > 1 || CodeField in data
  {
    (data - {CountField})[CodeField := CodeFor(data, random, i)]
  }

  /** The loop of `handleRecordCreation`. It makes `Count(data)` records, the
      `i`-th from `Created(data, random, i)`, and returns the last; when one
      record is to be made and no code was submitted, reading the code fails
      before any record is made. */
  method HandleRecordCreation(data: FormData, random: nat -> RandomCode)
    returns (created: seq<FormData>, last: Result<FormData, CreationError>)
    ensures last.Err? <==> Count(data) == 1 && CodeField !in data
    ensures last.Err? ==> created == [] && last.error == UndefinedArrayKey(CodeField)
    ensures last.Ok? ==> |created| == Count(data)
                         && (forall i :: 0 <= i < |created| ==> created[i] == Created(data, random, i))
                         && last.value == created[|created| - 1]
  {
    var number := Count(data);
    var generateCode := number > 1;
    var d := data - {CountField};
    created := [];
    var record: FormData := map[];
    var i := 0;
    while i < number
      invariant 0 <= i <= number
      invariant |created| == i
      invariant i > 0 ==> generateCode || CodeField in data
      invariant forall j :: 0 <= j < i ==> created[j] == Created(data, random, j)
      invariant i > 0 ==> record == created[i - 1]
      invariant d - {CodeField} == (data - {CountField}) - {CodeField}
      invariant !generateCode ==> d == data - {CountField}
    {
      if generateCode {
        ghost var before := d;
        d := d[CodeField := VText(random(i))];
        SameUpdate(before, data - {CountField}, CodeField, VText(random(i)));
      } else {
        if CodeField !in d {
          return [], Err(UndefinedArrayKey(CodeField));
        }
        d := d[CodeField := d[CodeField]];
      }
      assert d == Created(data, random, i);
      record := d;
      created := created + [d];
      i := i + 1;
    }
    last := Ok(record);
  }

  /** Two maps that agree outside a key agree everywhere once that key is
      set to the same value in both. */
  lemma SameUpdate(m1: FormData, m2: FormData, k: string, v: Value)
    requires m1 - {k} == m2 - {k}
    ensures m1[k := v] == m2[k := v]
  {
    forall x | x != k ensures (x in m1 <==> x in m2) && (x in m1 ==> m1[x] == m2[x]) {
      assert x in m1 <==> x in m1 - {k};
      assert x in m2 <==> x in m2 - {k};
      if x in m1 {
        assert m1[x] == (m1 - {k})[x];
        assert m2[x] == (m2 - {k})[x];
      }
    }
  }

  /** `number_of_coupons` reaches no record, and every record carries a
      code. */
  lemma CreatedFields(data: FormData, random: nat -> RandomCode, i: nat)
    requires Count(data) > 1 || CodeField in data
    ensures CountField !in Created(data, random, i)
    ensures CodeField in Created(data, random, i)
  {
  }

  /** Records made together differ at most in their codes: every other
      field is the submitted value, in every record. */
  lemma SameOtherFields(data: FormData, random: nat -> RandomCode, i: nat, j: nat, k: string)
    requires Count(data) > 1 || CodeField in data
    requires k != CodeField && k != CountField
    ensures k in Created(data, random, i) <==> k in data
    ensures k in data ==> Created(data, random, i)[k] == data[k] == Created(data, random, j)[k]
  {
  }

  /** A single record keeps the submitted code verbatim; with several,
      each gets a fresh ten-character code and the submitted one is ignored. */
  lemma CodeAssignment(data: FormData, random: nat -> RandomCode, i: nat)
    requires Count(data) > 1 || CodeField in data
    ensures Count(data) == 1 ==> Created(data, random, i)[CodeField] == data[CodeField]
    ensures Count(data) > 1 ==> Created(data, random, i)[CodeField] == VText(random(i))
                                && |Created(data, random, i)[CodeField].s| == 10
  {
  }

  /** A count typed as a numeral above one makes that many records. */
  lemma TypedCount(data: FormData, n: nat)
    requires CountField in data && data[CountField] == VText(Numeral(n))
    requires 1 < n <= IntMax
    ensures Count(data) == n
  {
    DoubleLimitAboveLong();
    NumeralRoundTrip(n);
  }

  /** A count typed with a decimal fraction short enough to be exact in a
      double makes as many records as its whole part. */
  lemma DecimalCount(data: FormData, n: nat, f: string)
    requires CountField in data && data[CountField] == VText(Numeral(n) + ['.'] + f)
    requires AllDigits(f) && (n + 1) * Pow10(|f|) <= Pow2(Precision)
    ensures Count(data) == if n > 1 then n else 1
  {
    DecimalTruncates(n, f);
  }

  /** A count typed as one, a point and nines makes one record with at most
      15 nines and two records from 16 nines on, where the double of the
      string is 2. */
  lemma NinesCount(data: FormData, j: nat)
    requires CountField in data && data[CountField] == VText(['1', '.'] + Nines(j))
    ensures Count(data) == if j < 16 then 1 else 2
  {
    OnePointNines(j);
  }

  /** A count of zero, a negative count or text without digits makes one
      record. */
  lemma LowCountIsOne(data: FormData)
    requires CountField in data && data[CountField] != VNull && IntCast(data[CountField]) <= 1
    ensures Count(data) == 1
  {
  }
}
