/** `validateForm`: turns the raw strings of the product form into validated
    product data, or into the first error in a fixed order. */
module Validation {
  import opened Wrappers
  import opened JsStrings
  import opened JsNumbers

  /** The raw values of the form's fields, as the browser hands them over. */
  datatype FormFields = FormFields(
    name: string, filamentType: string, colors: string, weight: string,
    dimensions: string, price: string, quantity: string, description: string)

  /** The validated record: trimmed texts, rounded decimals, a whole quantity. */
  datatype ProductData = ProductData(
    name: string, filamentType: string, colors: string, weight: real,
    dimensions: string, price: real, quantity: nat, description: string)

  datatype FormError =
    | InvalidWeight
    | InvalidPrice
    | InvalidQuantity
    | MissingFields(labels: seq<string>)

  datatype Validation = Rejected(error: FormError) | Accepted(data: ProductData)

  /** Labels of the required text fields, in the order they are checked. */
  const RequiredLabels: seq<string> := ["Nome", "Tipo de filamento", "Cores", "Dimensões", "Descrição"]

  /** The required text fields, in the order of `RequiredLabels`. */
  function RequiredTexts(f: FormFields): seq<string> {
    [f.name, f.filamentType, f.colors, f.dimensions, f.description]
  }

  /** Position of a label in `RequiredLabels` (5 for any other string). */
  function Rank(l: string): nat {
    if l == "Nome" then 0
    else if l == "Tipo de filamento" then 1
    else if l == "Cores" then 2
    else if l == "Dimensões" then 3
    else if l == "Descrição" then 4
    else 5
  }

  /** The labels pushed onto `missing`: a required field counts as missing
      when its raw, untrimmed string is empty (JavaScript falsiness). */
  function MissingLabels(f: FormFields): (r: seq<string>)
    ensures forall i :: 0 <= i < |RequiredLabels| ==>
              (RequiredLabels[i] in r <==> RequiredTexts(f)[i] == "")
    ensures forall l :: l in r ==> l in RequiredLabels
    ensures forall i, j :: 0 <= i < j < |r| ==> Rank(r[i]) < Rank(r[j])
  {
    RequiredLabelsRanked();
    MissingOfExact(RequiredLabels, RequiredTexts(f));
    MissingOfOrdered(RequiredLabels, RequiredTexts(f));
    MissingOf(RequiredLabels, RequiredTexts(f))
  }

  /** One `missing.push(label)` per empty text, in order. */
  function MissingOf(labels: seq<string>, texts: seq<string>): (r: seq<string>)
    requires |labels| == |texts|
    ensures forall l :: l in r ==> l in labels
  {
    if labels == [] then []
    else (if texts[0] == "" then [labels[0]] else []) + MissingOf(labels[1..], texts[1..])
  }

  predicate Ranked(labels: seq<string>) {
    forall i, j :: 0 <= i < j < |labels| ==> Rank(labels[i]) < Rank(labels[j])
  }

  lemma RequiredLabelsRanked()
    ensures Ranked(RequiredLabels)
  {
    assert forall i :: 0 <= i < |RequiredLabels| ==> Rank(RequiredLabels[i]) == i;
  }

  /** Every label pushed after the first ranks above the first. */
  lemma RestRankedAbove(labels: seq<string>, texts: seq<string>)
    requires |labels| == |texts| && labels != [] && Ranked(labels)
    ensures forall l :: l in MissingOf(labels[1..], texts[1..]) ==> Rank(labels[0]) < Rank(l)
  {
    forall l | l in MissingOf(labels[1..], texts[1..])
      ensures Rank(labels[0]) < Rank(l)
    {
      var k :| 0 <= k < |labels[1..]| && labels[1..][k] == l;
      assert labels[k + 1] == l;
    }
  }

  /** With labels in rank order (so all different), a label is pushed
      exactly when its text is empty. */
  lemma {:induction false} MissingOfExact(labels: seq<string>, texts: seq<string>)
    requires |labels| == |texts| && Ranked(labels)
    ensures forall i :: 0 <= i < |labels| ==> (labels[i] in MissingOf(labels, texts) <==> texts[i] == "")
  {
    if labels != [] {
      MissingOfExact(labels[1..], texts[1..]);
      RestRankedAbove(labels, texts);
      forall i | 0 < i < |labels|
        ensures labels[i] in MissingOf(labels, texts) <==> texts[i] == ""
      {
        assert Rank(labels[0]) < Rank(labels[i]);
        assert labels[1..][i - 1] == labels[i] && texts[1..][i - 1] == texts[i];
      }
    }
  }

  /** The pushed labels keep the labels' rank order. */
  lemma {:induction false} MissingOfOrdered(labels: seq<string>, texts: seq<string>)
    requires |labels| == |texts| && Ranked(labels)
    ensures Ranked(MissingOf(labels, texts))
  {
    if labels != [] {
      var rest := MissingOf(labels[1..], texts[1..]);
      MissingOfOrdered(labels[1..], texts[1..]);
      RestRankedAbove(labels, texts);
      if texts[0] == "" {
        PushedFirst(labels[0], rest);
      } else {
        assert MissingOf(labels, texts) == [] + rest;
      }
    }
  }

  lemma PushedFirst(l: string, rest: seq<string>)
    requires Ranked(rest) && forall m :: m in rest ==> Rank(l) < Rank(m)
    ensures Ranked([l] + rest)
  {
    forall i, j | 0 <= i < j < |[l] + rest|
      ensures Rank(([l] + rest)[i]) < Rank(([l] + rest)[j])
    {
      assert ([l] + rest)[j] == rest[j - 1];
      if i > 0 {
        assert ([l] + rest)[i] == rest[i - 1];
      } else {
        assert rest[j - 1] in rest;
      }
    }
  }

  /** Nothing is pushed exactly when no text is empty. */
  lemma {:induction false} MissingOfNone(labels: seq<string>, texts: seq<string>)
    requires |labels| == |texts|
    ensures MissingOf(labels, texts) == [] <==> forall i :: 0 <= i < |texts| ==> texts[i] != ""
  {
    if labels != [] {
      MissingOfNone(labels[1..], texts[1..]);
      assert forall i :: 0 < i < |texts| ==> texts[i] == texts[1..][i - 1];
    }
  }

  /** No label is missing exactly when every required field is non-empty. */
  lemma NoneMissing(f: FormFields)
    ensures MissingLabels(f) == [] <==> forall t :: t in RequiredTexts(f) ==> t != ""
  {
    var texts := RequiredTexts(f);
    MissingOfNone(RequiredLabels, texts);
    if forall i :: 0 <= i < |texts| ==> texts[i] != "" {
      forall t | t in texts
        ensures t != ""
      {
        var i :| 0 <= i < |texts| && texts[i] == t;
      }
    } else {
      var i :| 0 <= i < |texts| && texts[i] == "";
      assert texts[i] in texts;
    }
  }

  /** A decimal field that `normalizeDecimal` accepts and that is not negative. */
  predicate DecimalOk(s: string) {
    NormalizeDecimal(s).Some? && NormalizeDecimal(s).value >= 0.0
  }

  predicate QuantityOk(s: string) {
    ToNonNegativeInteger(Text(s)).Some?
  }

  /** What the store may rely on for data that passed validation. */
  predicate ValidData(d: ProductData) {
    d.weight >= 0.0 && d.price >= 0.0
  }

  /** `validateForm`: weight, then price, then quantity, then the missing
      required fields (all of them in one error); the first failure wins. */
  function ValidateForm(f: FormFields): (r: Validation)
    ensures r == Rejected(InvalidWeight) <==> !DecimalOk(f.weight)
    ensures r == Rejected(InvalidPrice) <==> DecimalOk(f.weight) && !DecimalOk(f.price)
    ensures r == Rejected(InvalidQuantity) <==>
              DecimalOk(f.weight) && DecimalOk(f.price) && !QuantityOk(f.quantity)
    ensures r.Rejected? && r.error.MissingFields? <==>
              DecimalOk(f.weight) && DecimalOk(f.price) && QuantityOk(f.quantity)
              && exists t :: t in RequiredTexts(f) && t == ""
    ensures r.Rejected? && r.error.MissingFields? ==> r.error.labels == MissingLabels(f)
    ensures r.Accepted? ==> ValidData(r.data)
    ensures r.Accepted? ==>
              && r.data.name == Trim(f.name) && r.data.filamentType == Trim(f.filamentType)
              && r.data.colors == Trim(f.colors) && r.data.dimensions == Trim(f.dimensions)
              && r.data.description == Trim(f.description)
              && r.data.weight == ToFixed2(NormalizeDecimal(f.weight).value)
              && r.data.price == ToFixed2(NormalizeDecimal(f.price).value)
              && Some(r.data.quantity) == ToNonNegativeInteger(Text(f.quantity))
  {
    var missing := MissingLabels(f);
    var weightNumber := NormalizeDecimal(f.weight);
    var priceNumber := NormalizeDecimal(f.price);
    var quantityInt := ToNonNegativeInteger(Text(f.quantity));
    NoneMissing(f);
    if weightNumber.None? || weightNumber.value < 0.0 then Rejected(InvalidWeight)
    else if priceNumber.None? || priceNumber.value < 0.0 then Rejected(InvalidPrice)
    else if quantityInt.None? then Rejected(InvalidQuantity)
    else if |missing| > 0 then Rejected(MissingFields(missing))
    else
      Accepted(ProductData(
        Trim(f.name), Trim(f.filamentType), Trim(f.colors), ToFixed2(weightNumber.value),
        Trim(f.dimensions), ToFixed2(priceNumber.value), quantityInt.value, Trim(f.description)))
  }

  /** The message shown for each error: a sentence, ending with a full
      stop. */
  function Message(e: FormError): (m: string)
    ensures |m| >= 2 && m[|m| - 1] == '.'
  {
    match e
    case InvalidWeight => "Peso deve ser um número maior ou igual a zero (g)."
    case InvalidPrice => "Preço deve ser um número maior ou igual a zero (R$)."
    case InvalidQuantity => "Quantidade deve ser um inteiro maior ou igual a zero."
    case MissingFields(labels) => "Campos obrigatórios: " + Join(labels, ", ") + "."
  }

  /** Each of the three number errors has its own message, and a single
      missing field is named in its message. */
  lemma MessagesDiffer(e1: FormError, e2: FormError, name: string)
    ensures Message(e1) == Message(e2) && !e1.MissingFields? && !e2.MissingFields? ==> e1 == e2
    ensures Message(MissingFields([name])) == "Campos obrigatórios: " + name + "."
  {
    var w, p, q := Message(InvalidWeight), Message(InvalidPrice), Message(InvalidQuantity);
    assert w[|w| - 2] == ')' && w[|w| - 3] == 'g';
    assert p[|p| - 2] == ')' && p[|p| - 3] == '$';
    assert q[|q| - 2] == 'o';
  }

  /** The required-field test looks at the raw string: a name of spaces only
      passes it and is then trimmed to the empty string. */
  lemma BlankNameAccepted(f: FormFields)
    requires DecimalOk(f.weight) && DecimalOk(f.price) && QuantityOk(f.quantity)
    requires forall t :: t in RequiredTexts(f) ==> t != ""
    requires forall i :: 0 <= i < |f.name| ==> IsWhiteSpace(f.name[i])
    ensures ValidateForm(f).Accepted? && ValidateForm(f).data.name == ""
  {
    Accepts(f);
  }

  /** A negative weight such as `"-5"` is refused, whatever the other
      fields hold. */
  lemma NegativeWeightRejected(f: FormFields, ds: string)
    requires ds != [] && AllRadixDigits(ds, 10) && Value(ds, 10) > 0
    requires f.weight == "-" + ds
    ensures ValidateForm(f) == Rejected(InvalidWeight)
  {
    NegativeNormalizes(ds);
    IntegerNormalizes(ds);
  }

  /** A weight that is not a number, such as `"abc"`, is refused. */
  lemma NonNumericWeightRejected(f: FormFields)
    requires f.weight != [] && !IsWhiteSpace(f.weight[0]) && !IsWhiteSpace(f.weight[|f.weight| - 1])
    requires !IsDigit(f.weight[0]) && f.weight[0] !in ".,+-"
    ensures ValidateForm(f) == Rejected(InvalidWeight)
  {
    NonNumericRejected(f.weight);
  }

  /** A quantity typed with a fraction keeps its whole part: `"3.7"` is 3. */
  lemma FractionalQuantityTruncated(f: FormFields, n: nat, fraction: string)
    requires DecimalOk(f.weight) && DecimalOk(f.price)
    requires forall t :: t in RequiredTexts(f) ==> t != ""
    requires |fraction| > 0 && fraction[0] == '.'
    requires f.quantity == ShowNat(n) + fraction
    ensures ValidateForm(f).Accepted? && ValidateForm(f).data.quantity == n
  {
    ToNonNegativeIntegerOfDigits(n, fraction);
    Accepts(f);
  }

  /** Every check passes, so the form is accepted. */
  lemma Accepts(f: FormFields)
    requires DecimalOk(f.weight) && DecimalOk(f.price) && QuantityOk(f.quantity)
    requires forall t :: t in RequiredTexts(f) ==> t != ""
    ensures ValidateForm(f).Accepted?
  {
    var r := ValidateForm(f);
    assert !(exists t :: t in RequiredTexts(f) && t == "");
    assert !r.Rejected?;
  }

  /** The example record's decimals, typed with a comma. */
  lemma ExampleWeight()
    ensures NormalizeDecimal("200,5") == Some(200.5) && ToFixed2(200.5) == 200.5
  {
    ExampleWeightText();
    ExampleWeightValue();
    assert (200.5 * 100.0 + 0.5).Floor == 20050;
  }

  lemma ExampleWeightValue()
    ensures DecimalValue("200", "5") == 200.5
  {
    assert "200"[..2] == "20" && "20"[..1] == "2" && "2"[..0] == "" && "5"[..0] == "";
    assert Value("200", 10) == 200 && Value("5", 10) == 5 && Pow10(1) == 10;
  }

  lemma ExampleWeightText()
    ensures NormalizeDecimal("200,5") == Some(DecimalValue("200", "5"))
  {
    assert "200" + "," + "5" == "200,5";
    CommaOrDot("200", "5");
  }

  lemma ExamplePrice()
    ensures NormalizeDecimal("49,90") == Some(49.9) && ToFixed2(49.9) == 49.9
  {
    ExamplePriceText();
    ExamplePriceValue();
    assert (49.9 * 100.0 + 0.5).Floor == 4990;
  }

  lemma ExamplePriceValue()
    ensures DecimalValue("49", "90") == 49.9
  {
    assert "49"[..1] == "4" && "4"[..0] == "" && "90"[..1] == "9" && "9"[..0] == "";
    assert Value("49", 10) == 49 && Value("90", 10) == 90 && Pow10(2) == 100;
  }

  lemma ExamplePriceText()
    ensures NormalizeDecimal("49,90") == Some(DecimalValue("49", "90"))
  {
    assert "49" + "," + "90" == "49,90";
    CommaOrDot("49", "90");
  }

  lemma ExampleQuantity()
    ensures ToNonNegativeInteger(Text("10")) == Some(10)
  {
    assert "" + "" + "10" + "" == "10";
    assert "10"[..1] == "1" && "1"[..0] == "";
    assert Value("10", 10) == 10;
    ToNonNegativeIntegerOfText("", "", "10", "");
  }
}
