/**
  The submit block of the form: translate the selected labels back to
  their codes and assemble the one-row frame that is handed to the
  pipeline's predictor.
*/
module Submission {
  import opened Wrappers
  import opened Dicts
  import opened Decimal
  import opened Frames
  import opened Mappings
  import YearOfBirth

  /** The eight values the form hands over when it is submitted. */
  datatype Form = Form(
    sexName: string,
    year: int,
    smokingName: string,
    maritalStatus: string,
    coverageUnit: int,
    policyTerm: int,
    productName: string,
    issueState: string)

  /**
    What the widgets can hand over: each select box returns one of its
    options, the year input stays within 1960..2015, and the coverage unit
    and policy term inputs are at least 1.
  */
  ghost predicate FromWidgets(f: Form) {
    && f.sexName in SexNames
    && 1960 <= f.year <= 2015
    && f.smokingName in SmokingNames
    && f.maritalStatus in MaritalStatusValues
    && f.coverageUnit >= 1
    && f.policyTerm >= 1
    && f.productName in ProductNames
    && f.issueState in IssueStateValues
  }

  /** The columns of the input frame, in the order of the `input_data` dict. */
  const RecordColumns: seq<string> := [
    "sex", "customerdob", "smokingclass", "maritalstatus",
    "coverageunit", "policyterm", "prodcode", "issuestate"
  ]

  const RecordKeys: set<string> := {
    "sex", "customerdob", "smokingclass", "maritalstatus",
    "coverageunit", "policyterm", "prodcode", "issuestate"
  }

  lemma RecordColumnsDistinct()
    ensures Dicts.Distinct(RecordColumns)
    ensures (set c | c in RecordColumns) == RecordKeys
  {
  }

  /** The one row of the input frame, from the three looked-up codes and the form. */
  function InputRow(sexCode: string, smokingCode: string, prodCode: string, f: Form): (row: Row)
    ensures row.Keys == RecordKeys
    ensures row["sex"] == Text(sexCode) && row["customerdob"] == Text(IntToString(f.year))
    ensures row["smokingclass"] == Text(smokingCode) && row["prodcode"] == Text(prodCode)
    ensures row["maritalstatus"] == Text(f.maritalStatus) && row["issuestate"] == Text(f.issueState)
    ensures row["coverageunit"] == Int(f.coverageUnit) && row["policyterm"] == Int(f.policyTerm)
  {
    map[
      "sex" := Text(sexCode),
      "customerdob" := Text(IntToString(f.year)),
      "smokingclass" := Text(smokingCode),
      "maritalstatus" := Text(f.maritalStatus),
      "coverageunit" := Int(f.coverageUnit),
      "policyterm" := Int(f.policyTerm),
      "prodcode" := Text(prodCode),
      "issuestate" := Text(f.issueState)
    ]
  }

  /**
    The submit block, given the three inverse dicts: the labels are looked
    up in the order sex, smoking class, product, and the first one that is
    not a key raises KeyError; otherwise the result is the one-row input
    frame.
  */
  function Translate(sexCodes: Items<string, string>, smokingCodes: Items<string, string>,
                     productCodes: Items<string, string>, f: Form): (r: Result<Frame, Error>)
    ensures r.Success? ==> WellFormed(r.value) && r.value.columns == RecordColumns && |r.value.rows| == 1
  {
    var sex := Get(sexCodes, f.sexName);
    var smoking := Get(smokingCodes, f.smokingName);
    var prod := Get(productCodes, f.productName);
    if sex.None? then Failure(KeyError(f.sexName))
    else if smoking.None? then Failure(KeyError(f.smokingName))
    else if prod.None? then Failure(KeyError(f.productName))
    else
      var row := InputRow(sex.value, smoking.value, prod.value, f);
      InputFrameWellFormed(row);
      Success(Frame(RecordColumns, [row]))
  }

  /** The submit block as the form runs it, with `name_to_sex_code`, `name_to_smoking_code` and `name_to_code`. */
  function Submit(f: Form): (r: Result<Frame, Error>)
    ensures r.Success? <==> f.sexName in SexNames && f.smokingName in SmokingNames && f.productName in ProductNames
  {
    TranslateOutcome(NameToSexCode, NameToSmokingCode, NameToCode, f);
    SexLabelLookup(f.sexName);
    SmokingLabelLookup(f.smokingName);
    ProductLabelLookup(f.productName);
    Translate(NameToSexCode, NameToSmokingCode, NameToCode, f)
  }

  lemma InputFrameWellFormed(row: Row)
    requires row.Keys == RecordKeys
    ensures WellFormed(Frame(RecordColumns, [row]))
  {
    RecordColumnsDistinct();
  }

  /**
    Translating fails exactly when a label is not a key of its inverse
    dict, and the KeyError names the first such label; otherwise the one
    row holds the looked-up codes, the year as text and the other four
    values unchanged.
  */
  lemma TranslateOutcome(sexCodes: Items<string, string>, smokingCodes: Items<string, string>,
                         productCodes: Items<string, string>, f: Form)
    ensures var r := Translate(sexCodes, smokingCodes, productCodes, f);
            var sex, smoking, prod := Get(sexCodes, f.sexName), Get(smokingCodes, f.smokingName), Get(productCodes, f.productName);
            && (r.Failure? <==> sex.None? || smoking.None? || prod.None?)
            && (r.Failure? ==>
                  r.error == KeyError(if sex.None? then f.sexName else if smoking.None? then f.smokingName else f.productName))
            && (r.Success? ==>
                  r.value.rows[0] == InputRow(sex.value, smoking.value, prod.value, f))
  {
  }

  /**
    Submitting fails exactly when a label is not one of the names its
    select box offers, and the KeyError names the first such label.
  */
  lemma SubmitFailsOnlyOnUnknownLabel(f: Form)
    ensures Submit(f).Failure? <==>
              f.sexName !in SexNames || f.smokingName !in SmokingNames || f.productName !in ProductNames
    ensures Submit(f).Failure? ==>
              Submit(f).error == KeyError(
                if f.sexName !in SexNames then f.sexName
                else if f.smokingName !in SmokingNames then f.smokingName
                else f.productName)
  {
    TranslateOutcome(NameToSexCode, NameToSmokingCode, NameToCode, f);
    SexLabelLookup(f.sexName);
    SmokingLabelLookup(f.smokingName);
    ProductLabelLookup(f.productName);
  }

  /**
    Whatever the widgets hand over is accepted, and the record carries the
    code whose label was selected for sex, smoking class and product (one
    of the original codes), the year as four-digit text that `%Y` reads
    back as the same year, and the other four values unchanged.
  */
  lemma SubmitRecord(f: Form)
    requires FromWidgets(f)
    ensures Submit(f).Success?
    ensures var row := Submit(f).value.rows[0];
            && row.Keys == RecordKeys
            && row["sex"].Text? && row["sex"].s in OriginalSex
            && Get(SexMap, row["sex"].s) == Some(f.sexName)
            && row["customerdob"].Text? && |row["customerdob"].s| == 4
            && ParseYear(row["customerdob"].s) == Some(f.year)
            && row["smokingclass"].Text? && row["smokingclass"].s in OriginalSmokingClass
            && Get(SmokingMap, row["smokingclass"].s) == Some(f.smokingName)
            && row["maritalstatus"] == Text(f.maritalStatus)
            && row["coverageunit"] == Int(f.coverageUnit)
            && row["policyterm"] == Int(f.policyTerm)
            && row["prodcode"].Text? && row["prodcode"].s in OriginalProdCode
            && Get(ProductMap, row["prodcode"].s) == Some(f.productName)
            && row["issuestate"] == Text(f.issueState)
  {
    TranslateOutcome(NameToSexCode, NameToSmokingCode, NameToCode, f);
    SexLabelLookup(f.sexName);
    SmokingLabelLookup(f.smokingName);
    ProductLabelLookup(f.productName);
    YearTextRoundTrip(f.year);
  }

  /** The lookups of the labels "Male", "Non-smoker" and "Basic Life Insurance". */
  lemma ExampleLookups()
    ensures Get(NameToSexCode, "Male") == Some("M")
    ensures Get(NameToSmokingCode, "Non-smoker") == Some("N")
    ensures Get(NameToCode, "Basic Life Insurance") == Some("A0001")
  {
    SexTable();
    CodeLabelCode(SexMap, 0);
    SmokingTable();
    CodeLabelCode(SmokingMap, 1);
    ProductTable();
    CodeLabelCode(ProductMap, 0);
  }

  /** The year input's default, 1980, is written as "1980". */
  lemma DefaultYearText()
    ensures IntToString(1980) == "1980"
  {
    assert DigitChar(1) == '1' && DigitChar(9) == '9' && DigitChar(8) == '8' && DigitChar(0) == '0';
    assert NatToDigits(1) == "1";
    assert NatToDigits(19) == "19";
    assert NatToDigits(198) == "198";
    assert NatToDigits(1980) == "1980";
  }

  /**
    A male non-smoker born in 1980, married, in California, asking for 96
    units of Basic Life Insurance over 15 years, and the record submitted.
  */
  lemma ExampleSubmission()
    ensures Submit(Form("Male", 1980, "Non-smoker", "married", 96, 15, "Basic Life Insurance", "CA"))
         == Success(Frame(RecordColumns, [map[
              "sex" := Text("M"),
              "customerdob" := Text("1980"),
              "smokingclass" := Text("N"),
              "maritalstatus" := Text("married"),
              "coverageunit" := Int(96),
              "policyterm" := Int(15),
              "prodcode" := Text("A0001"),
              "issuestate" := Text("CA")
            ]]))
  {
    var f := Form("Male", 1980, "Non-smoker", "married", 96, 15, "Basic Life Insurance", "CA");
    ExampleLookups();
    TranslateOutcome(NameToSexCode, NameToSmokingCode, NameToCode, f);
    DefaultYearText();
  }

  lemma RecordHasNoYearOfBirth()
    ensures YearOfBirth.CustomerDob in RecordColumns
    ensures YearOfBirth.YearOfBirthColumn !in RecordKeys
  {
  }

  /** The submitted frame has a `customerdob` column holding the year as text, and no `year_of_birth`. */
  lemma SubmittedBirthYearText(f: Form)
    requires FromWidgets(f)
    ensures Submit(f).Success?
    ensures var x := Submit(f).value;
            && YearOfBirth.CustomerDob in x.columns && YearOfBirth.YearOfBirthColumn !in x.rows[0]
            && Cell(x.rows[0], YearOfBirth.CustomerDob) == Text(IntToString(f.year))
  {
    TranslateOutcome(NameToSexCode, NameToSmokingCode, NameToCode, f);
    SexLabelLookup(f.sexName);
    SmokingLabelLookup(f.smokingName);
    ProductLabelLookup(f.productName);
    RecordHasNoYearOfBirth();
    var row := Submit(f).value.rows[0];
    assert row.Keys == RecordKeys;
  }

  /**
    The submitted record passes the pipeline's year-of-birth step: the
    frame it gives has one row, no `customerdob`, the selected year as
    `year_of_birth`, and the other seven values as submitted.
  */
  lemma SubmittedYearOfBirth(f: Form)
    requires FromWidgets(f)
    ensures Submit(f).Success?
    ensures YearOfBirth.ExtractedFrame(Submit(f).value).Success?
    ensures var x := Submit(f).value;
            var y := YearOfBirth.ExtractedFrame(x).value;
            && |y.rows| == 1
            && y.rows[0][YearOfBirth.YearOfBirthColumn] == Int(f.year)
            && YearOfBirth.CustomerDob !in y.rows[0]
            && forall c :: c in x.rows[0] && c != YearOfBirth.CustomerDob ==> c in y.rows[0] && y.rows[0][c] == x.rows[0][c]
  {
    SubmittedBirthYearText(f);
    YearTextRoundTrip(f.year);
    var x := Submit(f).value;
    YearOfBirth.ExtractedYear(x, 0, IntToString(f.year));
    assert YearOfBirth.ExtractedFrame(x).value.rows[0] == YearOfBirth.ExtractedRow(x.rows[0]);
  }
}
