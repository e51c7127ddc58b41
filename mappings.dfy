/**
  The code/label tables of the form: the original category codes, the
  code -> label dicts shown to the user, their inverses built by dict
  comprehension, and the lists of selectable names.
*/
module Mappings {
  import opened Wrappers
  import opened Dicts

  const OriginalSex: seq<string> := ["M", "F"]
  const OriginalSmokingClass: seq<string> := ["S", "N"]
  const OriginalMaritalStatus: seq<string> := ["single", "married", "divorced"]
  const OriginalProdCode: seq<string> := ["A0001", "A0002", "A0003", "A0004"]
  const OriginalIssueState: seq<string> := [
    "ND", "MN", "PA", "MD", "FL", "NV", "WI", "UT", "MT", "MS",
    "DE", "MI", "SD", "CT", "NM", "AL", "NE", "OH", "IL", "MA",
    "AK", "AR", "GA", "IN", "CA", "NH", "OR", "CO", "KS", "NC",
    "ME", "NJ", "AZ", "HI", "WA", "WV", "ID", "VA", "TX", "LA",
    "KY", "RI", "TN", "WY", "MO", "SC", "IA", "OK", "NY", "VT", "DC"
  ]

  /** The pairs of each dict display, as written. */
  const SexDisplay: seq<(string, string)> := [("M", "Male"), ("F", "Female")]
  const SmokingDisplay: seq<(string, string)> := [("S", "Smoker"), ("N", "Non-smoker")]
  const ProductDisplay: seq<(string, string)> := [
    ("A0001", "Basic Life Insurance"),
    ("A0002", "Premium Life Insurance"),
    ("A0003", "Family Life Insurance"),
    ("A0004", "Senior Life Insurance")
  ]

  const SexMap: Items<string, string> := FromPairs(SexDisplay)
  const NameToSexCode: Items<string, string> := Invert(SexMap)
  const SexNames: seq<string> := Values(SexMap)

  const SmokingMap: Items<string, string> := FromPairs(SmokingDisplay)
  const NameToSmokingCode: Items<string, string> := Invert(SmokingMap)
  const SmokingNames: seq<string> := Values(SmokingMap)

  const ProductMap: Items<string, string> := FromPairs(ProductDisplay)
  const NameToCode: Items<string, string> := Invert(ProductMap)
  const ProductNames: seq<string> := Values(ProductMap)

  /** Marital status and issue state are offered as their codes, with no mapping. */
  const MaritalStatusValues: seq<string> := OriginalMaritalStatus
  const IssueStateValues: seq<string> := OriginalIssueState

  /** Every code comes back from the inverse of its own label. */
  ghost predicate CodesComeBack(d: Items<string, string>, codes: seq<string>, inverse: Items<string, string>) {
    forall c :: c in codes ==> Get(d, c).Some? && Get(inverse, Get(d, c).value) == Some(c)
  }

  /** Every name is a key of the inverse, and its code is one of `codes` and maps back to the name. */
  ghost predicate NamesComeBack(d: Items<string, string>, codes: seq<string>, names: seq<string>, inverse: Items<string, string>) {
    forall l :: l in names ==>
      Get(inverse, l).Some? && Get(inverse, l).value in codes && Get(d, Get(inverse, l).value) == Some(l)
  }

  /** Text that is not one of the names is not a key of the inverse (looking it up raises KeyError). */
  ghost predicate OnlyNamesResolve(names: seq<string>, inverse: Items<string, string>) {
    forall l :: l !in names ==> Get(inverse, l).None?
  }

  /**
    A code -> label table whose inverse loses nothing: its keys are the
    original codes and its values the selectable names, both without
    repetition, and both round trips hold.
  */
  ghost predicate LosslessTable(d: Items<string, string>, codes: seq<string>, names: seq<string>, inverse: Items<string, string>) {
    && Keys(d) == codes && Values(d) == names
    && Distinct(codes) && Distinct(names)
    && CodesComeBack(d, codes, inverse)
    && NamesComeBack(d, codes, names, inverse)
    && OnlyNamesResolve(names, inverse)
  }

  lemma CodesOfInversion(d: Items<string, string>)
    requires Distinct(Keys(d)) && Distinct(Values(d))
    ensures CodesComeBack(d, Keys(d), Invert(d))
  {
    forall c | c in Keys(d) ensures Get(d, c).Some? && Get(Invert(d), Get(d, c).value) == Some(c) {
      var i :| 0 <= i < |d| && Keys(d)[i] == c;
      GetItem(d, i);
      CodeLabelCode(d, i);
    }
  }

  lemma NamesOfInversion(d: Items<string, string>)
    requires Distinct(Keys(d))
    ensures NamesComeBack(d, Keys(d), Values(d), Invert(d))
    ensures OnlyNamesResolve(Values(d), Invert(d))
  {
    forall l ensures Get(Invert(d), l).Some? <==> l in Values(d) {
      InverseDomain(d, l);
    }
    forall l | l in Values(d)
      ensures Get(Invert(d), l).Some? && Get(Invert(d), l).value in Keys(d)
      ensures Get(d, Get(Invert(d), l).value) == Some(l)
    {
      LabelCodeLabel(d, l);
    }
  }

  /** Any dict with distinct values, inverted by comprehension, is a lossless table. */
  lemma InversionIsLossless(d: Items<string, string>)
    requires Distinct(Keys(d)) && Distinct(Values(d))
    ensures LosslessTable(d, Keys(d), Values(d), Invert(d))
  {
    CodesOfInversion(d);
    NamesOfInversion(d);
  }

  /** A dict display with distinct codes and distinct labels builds a lossless table. */
  lemma DisplayIsLossless(display: seq<(string, string)>, codes: seq<string>, names: seq<string>)
    requires Keys(display) == codes && Values(display) == names
    requires Distinct(codes) && Distinct(names)
    ensures FromPairs(display) == display
    ensures LosslessTable(FromPairs(display), codes, names, Invert(FromPairs(display)))
  {
    FromPairsOfDistinct(display);
    InversionIsLossless(display);
  }

  lemma SexTable()
    ensures SexMap == SexDisplay
    ensures SexNames == ["Male", "Female"]
    ensures LosslessTable(SexMap, OriginalSex, SexNames, NameToSexCode)
  {
    assert Keys(SexDisplay) == OriginalSex;
    assert Values(SexDisplay) == ["Male", "Female"];
    DisplayIsLossless(SexDisplay, OriginalSex, ["Male", "Female"]);
  }

  lemma SmokingTable()
    ensures SmokingMap == SmokingDisplay
    ensures SmokingNames == ["Smoker", "Non-smoker"]
    ensures LosslessTable(SmokingMap, OriginalSmokingClass, SmokingNames, NameToSmokingCode)
  {
    assert Keys(SmokingDisplay) == OriginalSmokingClass;
    assert Values(SmokingDisplay) == ["Smoker", "Non-smoker"];
    DisplayIsLossless(SmokingDisplay, OriginalSmokingClass, ["Smoker", "Non-smoker"]);
  }

  lemma ProductCodesDistinct()
    ensures Distinct(OriginalProdCode)
  {
    var c := OriginalProdCode;
    assert forall i :: 0 <= i < 4 ==> |c[i]| == 5 && c[i][4] == ['1', '2', '3', '4'][i];
  }

  lemma ProductNamesDistinct()
    ensures Distinct(Values(ProductDisplay))
  {
    var n := Values(ProductDisplay);
    assert forall i :: 0 <= i < 4 ==> |n[i]| > 1 && n[i][1] == ['a', 'r', 'a', 'e'][i];
    assert n[0][0] == 'B' && n[2][0] == 'F';
  }

  lemma ProductTable()
    ensures ProductMap == ProductDisplay
    ensures ProductNames == ["Basic Life Insurance", "Premium Life Insurance", "Family Life Insurance", "Senior Life Insurance"]
    ensures LosslessTable(ProductMap, OriginalProdCode, ProductNames, NameToCode)
  {
    ProductCodesDistinct();
    ProductNamesDistinct();
    assert Keys(ProductDisplay) == OriginalProdCode;
    DisplayIsLossless(ProductDisplay, OriginalProdCode, Values(ProductDisplay));
  }

  /** Looking a label up in `name_to_sex_code` succeeds exactly for the sex names, with a code labelled by it. */
  lemma SexLabelLookup(l: string)
    ensures Get(NameToSexCode, l).Some? <==> l in SexNames
    ensures Get(NameToSexCode, l).Some? ==>
              Get(NameToSexCode, l).value in OriginalSex && Get(SexMap, Get(NameToSexCode, l).value) == Some(l)
  {
    SexTable();
    assert NamesComeBack(SexMap, OriginalSex, SexNames, NameToSexCode);
    assert OnlyNamesResolve(SexNames, NameToSexCode);
  }

  /** Looking a label up in `name_to_smoking_code` succeeds exactly for the smoking names, with a code labelled by it. */
  lemma SmokingLabelLookup(l: string)
    ensures Get(NameToSmokingCode, l).Some? <==> l in SmokingNames
    ensures Get(NameToSmokingCode, l).Some? ==>
              Get(NameToSmokingCode, l).value in OriginalSmokingClass
              && Get(SmokingMap, Get(NameToSmokingCode, l).value) == Some(l)
  {
    SmokingTable();
    assert NamesComeBack(SmokingMap, OriginalSmokingClass, SmokingNames, NameToSmokingCode);
    assert OnlyNamesResolve(SmokingNames, NameToSmokingCode);
  }

  /** Looking a label up in `name_to_code` succeeds exactly for the product names, with a code labelled by it. */
  lemma ProductLabelLookup(l: string)
    ensures Get(NameToCode, l).Some? <==> l in ProductNames
    ensures Get(NameToCode, l).Some? ==>
              Get(NameToCode, l).value in OriginalProdCode && Get(ProductMap, Get(NameToCode, l).value) == Some(l)
  {
    ProductTable();
    assert NamesComeBack(ProductMap, OriginalProdCode, ProductNames, NameToCode);
    assert OnlyNamesResolve(ProductNames, NameToCode);
  }
}
