/**
 * Lines from the decoder's own table of cases, each described as a line
 * form and read back through `EnvFileOfForm`. Each case takes the document
 * as a parameter equal to the line, so that the decoder is not unfolded on
 * the literal text.
 */
module Examples {
  import opened Wrappers
  import opened Document
  import opened LineEncode

  const EmptyForm := LineForm("", None, "EMPTY", Equals("", ""), Bare, "", "", None)
  const SingleQuotesForm := LineForm("", None, "SINGLE_QUOTES", Equals("", ""), Quoted('\''), "single_quotes", "", None)
  const EqualSignsForm := LineForm("", None, "EQUAL_SIGNS", Equals("", ""), Bare, "equals==", "", None)
  const EmptySingleForm := LineForm("", None, "EMPTY_SINGLE_QUOTES", Equals("", ""), Quoted('\''), "", "", None)
  const EmptyDoubleForm := LineForm("", None, "EMPTY_DOUBLE_QUOTES", Equals("", ""), Quoted('"'), "", "", None)
  const EmptyBackticksForm := LineForm("", None, "EMPTY_BACKTICKS", Equals("", ""), Quoted('`'), "", "", None)
  const SpacedKeyForm := LineForm("    ", None, "SPACED_KEY", Equals(" ", " "), Bare, "parsed", "", None)

  lemma EmptyFormOk()
    ensures WellFormed(EmptyForm) && RenderLine(EmptyForm) == "EMPTY="
  {
  }

  lemma SingleQuotesWellFormed()
    ensures WellFormed(SingleQuotesForm)
  {
  }

  lemma SingleQuotesText()
    ensures RenderLine(SingleQuotesForm) == "SINGLE_QUOTES='single_quotes'"
  {
  }

  lemma EqualSignsWellFormed()
    ensures WellFormed(EqualSignsForm)
  {
  }

  lemma EqualSignsText()
    ensures RenderLine(EqualSignsForm) == "EQUAL_SIGNS=equals=="
  {
  }

  lemma SpacedKeyWellFormed()
    ensures WellFormed(SpacedKeyForm)
  {
  }

  lemma SpacedKeyText()
    ensures RenderLine(SpacedKeyForm) == "    SPACED_KEY = parsed"
  {
  }

  /** An assignment with nothing after the separator gives the empty value. */
  lemma ExampleEmpty(doc: string)
    requires doc == "EMPTY="
    ensures EnvFile(doc).value == map["EMPTY" := ""]
  {
    EmptyFormOk();
    EnvFileOfForm(EmptyForm);
  }

  /** Single quotes are removed. */
  lemma ExampleSingleQuotes(doc: string)
    requires doc == "SINGLE_QUOTES='single_quotes'"
    ensures EnvFile(doc).value == map["SINGLE_QUOTES" := "single_quotes"]
  {
    SingleQuotesWellFormed();
    SingleQuotesText();
    EnvFileOfForm(SingleQuotesForm);
  }

  /** Equals signs after the separator belong to the value. */
  lemma ExampleEqualSigns(doc: string)
    requires doc == "EQUAL_SIGNS=equals=="
    ensures EnvFile(doc).value == map["EQUAL_SIGNS" := "equals=="]
  {
    EqualSignsWellFormed();
    EqualSignsText();
    EnvFileOfForm(EqualSignsForm);
  }

  /** Indentation and blanks around `=` are not part of the key or the value. */
  lemma ExampleSpacedKey(doc: string)
    requires doc == "    SPACED_KEY = parsed"
    ensures EnvFile(doc).value == map["SPACED_KEY" := "parsed"]
  {
    SpacedKeyWellFormed();
    SpacedKeyText();
    EnvFileOfForm(SpacedKeyForm);
  }

  lemma EmptySingleOk()
    ensures WellFormed(EmptySingleForm) && RenderLine(EmptySingleForm) == "EMPTY_SINGLE_QUOTES=''"
  {
  }

  lemma EmptyDoubleOk()
    ensures WellFormed(EmptyDoubleForm) && RenderLine(EmptyDoubleForm) == "EMPTY_DOUBLE_QUOTES=\"\""
  {
  }

  lemma EmptyBackticksOk()
    ensures WellFormed(EmptyBackticksForm) && RenderLine(EmptyBackticksForm) == "EMPTY_BACKTICKS=``"
  {
  }

  /** Empty quotes of each kind give the empty value. */
  lemma ExampleEmptyQuotes(d1: string, d2: string, d3: string)
    requires d1 == "EMPTY_SINGLE_QUOTES=''" && d2 == "EMPTY_DOUBLE_QUOTES=\"\"" && d3 == "EMPTY_BACKTICKS=``"
    ensures EnvFile(d1).value == map["EMPTY_SINGLE_QUOTES" := ""]
    ensures EnvFile(d2).value == map["EMPTY_DOUBLE_QUOTES" := ""]
    ensures EnvFile(d3).value == map["EMPTY_BACKTICKS" := ""]
  {
    EmptySingleOk();
    EmptyDoubleOk();
    EmptyBackticksOk();
    EnvFileOfForm(EmptySingleForm);
    EnvFileOfForm(EmptyDoubleForm);
    EnvFileOfForm(EmptyBackticksForm);
  }
}
