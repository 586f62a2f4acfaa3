/** The cases the repository's unit tests assert, stated of the model. */
module GaanExamples {
  import opened Wrappers
  import opened Decimal
  import opened Fields
  import opened Gaan

  /** Clean text around a run of disallowed characters loses only that run. */
  lemma SanitizeDropsGap(a: string, gap: string, b: string)
    requires AllAllowed(a) && AllAllowed(b)
    requires forall i :: 0 <= i < |gap| ==> !IsAllowed(gap[i])
    ensures SanitizeInput(a + gap + b) == a + b
  {
    SanitizeAppend(a, gap);
    SanitizeAppend(a + gap, b);
    SanitizeIdentity(a);
    SanitizeIdentity(b);
    SanitizeEmpty(gap);
    assert SanitizeInput(a + gap) == a;
  }

  lemma SanitizeKeepsCleanText()
    ensures SanitizeInput("test123") == "test123"
  {
    SanitizeIdentity("test123");
  }

  lemma SanitizeRemovesSymbols()
    ensures SanitizeInput("test!@#123") == "test123"
  {
    SanitizeDropsGap("test", "!@#", "123");
    assert "test" + "!@#" + "123" == "test!@#123";
  }

  lemma SanitizeEmptyText()
    ensures SanitizeInput("") == ""
  {
  }

  /** Two clean words, each surrounded by runs of disallowed characters. */
  lemma SanitizeDropsGaps(g1: string, a: string, g2: string, b: string, g3: string)
    requires AllAllowed(a) && AllAllowed(b)
    requires forall i :: 0 <= i < |g1| ==> !IsAllowed(g1[i])
    requires forall i :: 0 <= i < |g2| ==> !IsAllowed(g2[i])
    requires forall i :: 0 <= i < |g3| ==> !IsAllowed(g3[i])
    ensures SanitizeInput(g1 + a + g2 + b + g3) == a + b
  {
    SanitizeLeadingGap(g1, a);
    assert SanitizeInput(g1 + a + g2) == a by {
      SanitizeAppend(g1 + a, g2);
      SanitizeEmpty(g2);
      assert a + [] == a;
    }
    assert SanitizeInput(g1 + a + g2 + b) == a + b by {
      SanitizeAppend(g1 + a + g2, b);
      SanitizeIdentity(b);
    }
    SanitizeAppend(g1 + a + g2 + b, g3);
    SanitizeEmpty(g3);
    assert (a + b) + [] == a + b;
  }

  lemma SanitizeLeadingGap(g: string, a: string)
    requires AllAllowed(a)
    requires forall i :: 0 <= i < |g| ==> !IsAllowed(g[i])
    ensures SanitizeInput(g + a) == a
  {
    SanitizeAppend(g, a);
    SanitizeEmpty(g);
    SanitizeIdentity(a);
  }

  lemma SanitizeRemovesSpaces()
    ensures SanitizeInput(" test input ") == "testinput"
  {
    SanitizeDropsGaps(" ", "test", " ", "input", " ");
    assert " " + "test" + " " + "input" + " " == " test input ";
  }

  /** The formatter's text for an in-range id number. */
  lemma GeneModelText(assemblyPrefix: string, entity: string, idNumber: int)
    requires 0 <= idNumber <= MAX_ID_NUMBER
    ensures CreateGeneModelIdentifier(assemblyPrefix, entity, idNumber)
         == Success(SanitizeInput(assemblyPrefix) + "." + SanitizeInput(entity) + "."
                    + ZFill(IntToString(idNumber), ID_WIDTH))
  {
  }

  lemma CleanGeneModelFields()
    ensures SanitizeInput("prefix") == "prefix" && SanitizeInput("g") == "g"
  {
    PrefixIsClean();
    SanitizeIdentity("g");
  }

  lemma PrefixIsClean()
    ensures AllAllowed("prefix") && SanitizeInput("prefix") == "prefix"
  {
    assert AllAllowed("prefix");
    SanitizeIdentity("prefix");
  }

  lemma GeneModelExampleText()
    ensures ZFill(IntToString(123), 6) == "000123"
    ensures "prefix" + "." + "g" + "." + "000123" == "prefix.g.000123"
  {
  }

  lemma GeneModelExample()
    ensures CreateGeneModelIdentifier("prefix", "g", 123) == Success("prefix.g.000123")
  {
    GeneModelText("prefix", "g", 123);
    CleanGeneModelFields();
    GeneModelExampleText();
  }

  lemma GeneModelLowestIdText()
    ensures ZFill(IntToString(0), 6) == "000000"
    ensures "prefix" + "." + "g" + "." + "000000" == "prefix.g.000000"
  {
  }

  lemma GeneModelLowestId()
    ensures CreateGeneModelIdentifier("prefix", "g", 0) == Success("prefix.g.000000")
  {
    GeneModelText("prefix", "g", 0);
    CleanGeneModelFields();
    GeneModelLowestIdText();
  }

  lemma HighestIdText()
    ensures NatToString(999999) == "999999"
  {
    NatToStringPush(9, 9);
    NatToStringPush(99, 9);
    NatToStringPush(999, 9);
    NatToStringPush(9999, 9);
    NatToStringPush(99999, 9);
  }

  lemma GeneModelHighestIdText()
    ensures ZFill("999999", 6) == "999999"
    ensures "prefix" + "." + "g" + "." + "999999" == "prefix.g.999999"
  {
  }

  lemma GeneModelHighestId()
    ensures CreateGeneModelIdentifier("prefix", "g", 999999) == Success("prefix.g.999999")
  {
    GeneModelText("prefix", "g", 999999);
    CleanGeneModelFields();
    HighestIdText();
    GeneModelHighestIdText();
  }

  lemma GeneModelIdOutOfRange()
    ensures CreateGeneModelIdentifier("prefix", "g", 1000000) == Failure(IdNumberOutOfRange(1000000, 999999))
  {
  }

  /** The formatter's text, in terms of the sanitized fields and the formatted numbers. */
  lemma AssemblyText(tolId: string, sampleIdentifier: string, consortium: string,
                     version: int, subversion: int, optional: string)
    ensures CreateAssemblyIdentifier(tolId, sampleIdentifier, consortium, version, subversion, optional)
         == SanitizeInput(tolId) + "." + SanitizeInput(sampleIdentifier) + "." + SanitizeInput(consortium)
            + "." + IntToString(version) + "." + IntToString(subversion)
            + (if SanitizeInput(optional) != "" then "." + SanitizeInput(optional) else "") + ".fasta"
  {
  }

  lemma CleanExampleFields()
    ensures SanitizeInput("TOL123") == "TOL123"
    ensures SanitizeInput("SAMPLE1") == "SAMPLE1"
    ensures SanitizeInput("GRP") == "GRP"
    ensures SanitizeInput("EXTRA") == "EXTRA"
  {
    CleanTolAndSample();
    SanitizeIdentity("GRP");
    SanitizeIdentity("EXTRA");
  }

  lemma CleanTolAndSample()
    ensures SanitizeInput("TOL123") == "TOL123"
    ensures SanitizeInput("SAMPLE1") == "SAMPLE1"
  {
    SanitizeIdentity("TOL123");
    SanitizeIdentity("SAMPLE1");
  }

  lemma SmallNumbers()
    ensures IntToString(0) == "0" && IntToString(1) == "1" && IntToString(2) == "2" && IntToString(3) == "3"
  {
  }

  lemma AssemblyExample()
    ensures CreateAssemblyIdentifier("TOL123", "SAMPLE1", "GRP", 1, 0) == "TOL123.SAMPLE1.GRP.1.0.fasta"
  {
    AssemblyText("TOL123", "SAMPLE1", "GRP", 1, 0, "");
    CleanExampleFields();
    SanitizeEmptyText();
    SmallNumbers();
    AssemblyExampleText();
  }

  lemma AssemblyExampleText()
    ensures "TOL123" + "." + "SAMPLE1" + "." + "GRP" + "." + "1" + "." + "0" + "" + ".fasta"
         == "TOL123.SAMPLE1.GRP.1.0.fasta"
  {
  }

  lemma AssemblyWithOptionalExample()
    ensures CreateAssemblyIdentifier("TOL123", "SAMPLE1", "GRP", 1, 0, "EXTRA") == "TOL123.SAMPLE1.GRP.1.0.EXTRA.fasta"
  {
    AssemblyText("TOL123", "SAMPLE1", "GRP", 1, 0, "EXTRA");
    CleanExampleFields();
    SmallNumbers();
    AssemblyWithOptionalText();
  }

  lemma AssemblyWithOptionalText()
    ensures "TOL123" + "." + "SAMPLE1" + "." + "GRP" + "." + "1" + "." + "0" + ("." + "EXTRA") + ".fasta"
         == "TOL123.SAMPLE1.GRP.1.0.EXTRA.fasta"
  {
  }

  lemma SanitizedExampleFields()
    ensures SanitizeInput("TOL!@#123") == "TOL123"
    ensures SanitizeInput("SAM!@#PLE1") == "SAMPLE1"
  {
    SanitizeDropsGap("TOL", "!@#", "123");
    assert "TOL" + "!@#" + "123" == "TOL!@#123";
    assert "TOL" + "123" == "TOL123";
    SanitizeDropsGap("SAM", "!@#", "PLE1");
    assert "SAM" + "!@#" + "PLE1" == "SAM!@#PLE1";
    assert "SAM" + "PLE1" == "SAMPLE1";
  }

  lemma AssemblySanitizedExample()
    ensures CreateAssemblyIdentifier("TOL!@#123", "SAM!@#PLE1", "GRP", 2, 1) == "TOL123.SAMPLE1.GRP.2.1.fasta"
  {
    AssemblyText("TOL!@#123", "SAM!@#PLE1", "GRP", 2, 1, "");
    SanitizedExampleFields();
    CleanExampleFields();
    SanitizeEmptyText();
    SmallNumbers();
    AssemblySanitizedText();
  }

  lemma AssemblySanitizedText()
    ensures "TOL123" + "." + "SAMPLE1" + "." + "GRP" + "." + "2" + "." + "1" + "" + ".fasta"
         == "TOL123.SAMPLE1.GRP.2.1.fasta"
  {
  }

  lemma AssemblyEmptyOptionalExample()
    ensures CreateAssemblyIdentifier("TOL123", "SAMPLE1", "GRP", 3, 2, "") == "TOL123.SAMPLE1.GRP.3.2.fasta"
  {
    AssemblyText("TOL123", "SAMPLE1", "GRP", 3, 2, "");
    CleanExampleFields();
    SanitizeEmptyText();
    SmallNumbers();
    AssemblyEmptyOptionalText();
  }

  lemma AssemblyEmptyOptionalText()
    ensures "TOL123" + "." + "SAMPLE1" + "." + "GRP" + "." + "3" + "." + "2" + "" + ".fasta"
         == "TOL123.SAMPLE1.GRP.3.2.fasta"
  {
  }

  lemma InvalidVersionText()
    ensures CreateAssemblyIdentifierFromText("TOL123", "SAMPLE1", "GRP", "invalid", "0")
         == Failure(InvalidNumericArgument("invalid"))
  {
  }

  lemma InvalidSubversionText()
    ensures CreateAssemblyIdentifierFromText("TOL123", "SAMPLE1", "GRP", "1", "invalid")
         == Failure(InvalidNumericArgument("invalid"))
  {
  }

  lemma ValidGeneModelParts()
    ensures "assemblyprefix" + "." + "g" + "." + "000123" == "assemblyprefix.g.000123"
    ensures '.' !in "assemblyprefix" && '.' !in "g" && '.' !in "000123"
  {
  }

  lemma ValidGeneModelFields()
    ensures IsGeneModelFieldList(["assemblyprefix", "g", "000123"])
  {
  }

  lemma ValidGeneModelExample()
    ensures ValidateGeneModelIdentifier("assemblyprefix.g.000123")
  {
    ValidGeneModelParts();
    GeneModelValidateParts("assemblyprefix", "g", "000123");
    ValidGeneModelFields();
  }

  lemma InvalidGeneModelParts()
    ensures "assemblyprefix" + "." + "invalid" + "." + "123" == "assemblyprefix.invalid.123"
    ensures '.' !in "assemblyprefix" && '.' !in "invalid" && '.' !in "123"
  {
  }

  lemma InvalidGeneModelExample()
    ensures !ValidateGeneModelIdentifier("assemblyprefix.invalid.123")
  {
    InvalidGeneModelParts();
    GeneModelValidateParts("assemblyprefix", "invalid", "123");
  }

  /** A negative version is formatted as given, and the result does not validate. */
  lemma NegativeVersionRejected()
    ensures !ValidateAssemblyIdentifier(CreateAssemblyIdentifier("TOL123", "SAMPLE1", "GRP", -1, 0))
  {
    AssemblyRoundTrip("TOL123", "SAMPLE1", "GRP", -1, 0, "");
  }
}
