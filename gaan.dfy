/**
 * The identifier codec of the genome assembly and annotation nomenclature:
 * a sanitizer for free-text fields, and a formatter and a validator for
 * assembly identifiers and for gene-model identifiers.
 *
 * The validators model an anchored match of the source's regular expressions
 * with `$` read as the end of the string (Python's `$` also matches before one
 * trailing newline, which this model does not).
 */
module Gaan {
  import opened Chars
  import opened Wrappers
  import opened Decimal
  import opened Fields

  /** Largest id number a gene-model identifier may carry. */
  const MAX_ID_NUMBER: int := 999999

  /** Width of the zero-padded numeric segment of a gene-model identifier. */
  const ID_WIDTH: nat := 6

  datatype GaanError =
    | InvalidNumericArgument(text: string)
    | IdNumberOutOfRange(idNumber: int, max: int)

  /* ---------------------------------------------------------------- Sanitizer */

  /** The sanitizer's alphabet `[A-Za-z0-9-]`. */
  predicate IsAllowed(c: char) {
    IsAlnum(c) || c == '-'
  }

  predicate AllAllowed(s: string) {
    forall i :: 0 <= i < |s| ==> IsAllowed(s[i])
  }

  lemma DropLastAppend(s: string)
    requires s != []
    ensures s[..|s| - 1] + [s[|s| - 1]] == s
  {
  }

  lemma AppendDropLast(a: string, b: string)
    requires b != []
    ensures (a + b)[..|a + b| - 1] == a + b[..|b| - 1]
    ensures (a + b)[|a + b| - 1] == b[|b| - 1]
  {
  }

  lemma AppendAssociates(x: string, y: string, z: string)
    ensures x + y + z == x + (y + z)
  {
  }

  /** Removes every character outside the sanitizer's alphabet. */
  function SanitizeInput(s: string): (r: string)
    ensures AllAllowed(r)
    ensures |r| <= |s|
  {
    if s == [] then []
    else
      var last := s[|s| - 1];
      SanitizeInput(s[..|s| - 1]) + (if IsAllowed(last) then [last] else [])
  }

  /**
   * `r` is `s` with exactly its disallowed characters removed, order kept:
   * `idx` lists, increasing, the positions of `s` that `r` keeps, and these
   * are precisely the positions holding an allowed character.
   */
  ghost predicate KeepsExactlyAllowed(s: string, r: string, idx: seq<nat>) {
    && |idx| == |r|
    && (forall k :: 0 <= k < |idx| ==> idx[k] < |s| && r[k] == s[idx[k]])
    && (forall k, l :: 0 <= k < l < |idx| ==> idx[k] < idx[l])
    && (forall j :: 0 <= j < |s| ==> (IsAllowed(s[j]) <==> j in idx))
  }

  /**
   * One more character of input: `r'` keeps it iff it is allowed, and its
   * position joins the index list.
   */
  lemma KeepsExactlyAllowedStep(s: string, r: string, r': string, idx: seq<nat>)
    requires s != []
    requires KeepsExactlyAllowed(s[..|s| - 1], r, idx)
    requires r' == r + (if IsAllowed(s[|s| - 1]) then [s[|s| - 1]] else [])
    ensures KeepsExactlyAllowed(s, r', idx + (if IsAllowed(s[|s| - 1]) then [|s| - 1] else []))
  {
    var n := |s| - 1;
    assert forall j :: 0 <= j < n ==> s[..n][j] == s[j];
  }

  lemma {:induction false} SanitizeKeepsExactlyAllowed(s: string)
    ensures exists idx :: KeepsExactlyAllowed(s, SanitizeInput(s), idx)
  {
    if s == [] {
      assert KeepsExactlyAllowed(s, SanitizeInput(s), []);
    } else {
      var n := |s| - 1;
      SanitizeKeepsExactlyAllowed(s[..n]);
      var idx: seq<nat> :| KeepsExactlyAllowed(s[..n], SanitizeInput(s[..n]), idx);
      KeepsExactlyAllowedStep(s, SanitizeInput(s[..n]), SanitizeInput(s), idx);
    }
  }

  /** The sanitizer works character by character, so it distributes over concatenation. */
  lemma {:induction false} SanitizeAppend(a: string, b: string)
    ensures SanitizeInput(a + b) == SanitizeInput(a) + SanitizeInput(b)
    decreases |b|
  {
    if b == [] {
      assert a + b == a;
    } else {
      var n := |b| - 1;
      var kept := if IsAllowed(b[n]) then [b[n]] else [];
      SanitizeAppend(a, b[..n]);
      AppendDropLast(a, b);
      assert SanitizeInput(a + b) == SanitizeInput(a + b[..n]) + kept;
      assert SanitizeInput(b) == SanitizeInput(b[..n]) + kept;
      AppendAssociates(SanitizeInput(a), SanitizeInput(b[..n]), kept);
    }
  }

  lemma SanitizedHasNoDot(s: string)
    ensures '.' !in SanitizeInput(s)
  {
    var r := SanitizeInput(s);
    assert AllAllowed(r);
  }

  /** Sanitized text is alphanumeric exactly when it has no hyphen. */
  lemma SanitizedAlnumIffHyphenFree(s: string)
    ensures AllAlnum(SanitizeInput(s)) <==> '-' !in SanitizeInput(s)
  {
    var r := SanitizeInput(s);
    assert AllAllowed(r);
  }

  /** The sanitizer changes a string exactly when it holds a disallowed character. */
  lemma {:induction false} SanitizeIdentity(s: string)
    ensures SanitizeInput(s) == s <==> AllAllowed(s)
  {
    if s != [] && AllAllowed(s) {
      var n := |s| - 1;
      SanitizeIdentity(s[..n]);
      DropLastAppend(s);
    }
  }

  lemma SanitizeIdempotent(s: string)
    ensures SanitizeInput(SanitizeInput(s)) == SanitizeInput(s)
  {
    SanitizeIdentity(SanitizeInput(s));
  }

  /**
   * The flag under which the source prints its warning: the sanitized text
   * differs from the original. It never affects the sanitized value.
   */
  function SanitizeWarns(s: string): (w: bool)
    ensures w <==> exists i :: 0 <= i < |s| && !IsAllowed(s[i])
  {
    SanitizeIdentity(s);
    SanitizeInput(s) != s
  }

  /** An allowed character occurs in the sanitized text iff it occurs in the original. */
  lemma {:induction false} SanitizeKeepsAllowedChar(s: string, c: char)
    requires IsAllowed(c)
    ensures c in SanitizeInput(s) <==> c in s
  {
    if s != [] {
      var n := |s| - 1;
      SanitizeKeepsAllowedChar(s[..n], c);
      DropLastAppend(s);
    }
  }

  lemma {:induction false} SanitizeEmpty(s: string)
    ensures SanitizeInput(s) == [] <==> forall i :: 0 <= i < |s| ==> !IsAllowed(s[i])
  {
    if s != [] {
      var n := |s| - 1;
      SanitizeEmpty(s[..n]);
      assert forall i :: 0 <= i < n ==> s[..n][i] == s[i];
    }
  }

  /**
   * The sanitized field is a non-empty alphanumeric word (what both grammars
   * ask of a text field) iff the original has no hyphen and some alphanumeric
   * character.
   */
  lemma SanitizedIsAlnumWord(s: string)
    ensures AlnumWord(SanitizeInput(s)) <==> '-' !in s && exists i :: 0 <= i < |s| && IsAlnum(s[i])
  {
    var r := SanitizeInput(s);
    SanitizeKeepsAllowedChar(s, '-');
    SanitizeEmpty(s);
    SanitizedAlnumIffHyphenFree(s);
  }

  /* ------------------------------------------------------ Assembly identifier */

  /**
   * The fields of `TOL.SAMPLE.CONSORTIUM.VERSION.SUBVERSION[.OPTIONAL].fasta`,
   * each in the class the assembly pattern gives it.
   */
  predicate IsAssemblyFieldList(fields: seq<string>) {
    && (|fields| == 6 || |fields| == 7)
    && AlnumWord(fields[0])
    && AlnumWord(fields[1])
    && AlnumWord(fields[2])
    && DigitWord(fields[3])
    && DigitWord(fields[4])
    && (|fields| == 7 ==> AlnumWord(fields[5]))
    && fields[|fields| - 1] == "fasta"
  }

  /** The anchored assembly pattern: `s` is the `.`-join of fields in their classes. */
  ghost predicate MatchesAssemblyPattern(s: string) {
    exists fields :: IsAssemblyFieldList(fields) && Join(fields, '.') == s
  }

  lemma AssemblyPatternBySplit(s: string)
    ensures MatchesAssemblyPattern(s) <==> IsAssemblyFieldList(Split(s, '.'))
  {
    if IsAssemblyFieldList(Split(s, '.')) {
      JoinSplit(s, '.');
    }
    if MatchesAssemblyPattern(s) {
      var fields :| IsAssemblyFieldList(fields) && Join(fields, '.') == s;
      assert forall k :: 0 <= k < |fields| ==> AllAlnum(fields[k]);
      SplitJoin(fields, '.');
    }
  }

  function ValidateAssemblyIdentifier(s: string): (b: bool)
    ensures b <==> MatchesAssemblyPattern(s)
  {
    AssemblyPatternBySplit(s);
    IsAssemblyFieldList(Split(s, '.'))
  }

  /** Appending `.f` for a dot-free field `f` appends `f` to the fields. */
  lemma SplitAppendField(x: string, f: string)
    requires '.' !in f
    ensures Split(x + "." + f, '.') == Split(x, '.') + [f]
  {
    SplitAppend(x, f, '.');
    SplitSepFree(f, '.');
  }

  lemma SplitFastaSuffix(x: string)
    ensures Split(x + ".fasta", '.') == Split(x, '.') + ["fasta"]
  {
    assert x + ".fasta" == x + "." + "fasta";
    SplitAppendField(x, "fasta");
  }

  lemma SplitFiveFields(t: string, m: string, c: string, v: string, sv: string)
    requires '.' !in t && '.' !in m && '.' !in c && '.' !in v && '.' !in sv
    ensures Split(t + "." + m + "." + c + "." + v + "." + sv, '.') == [t, m, c, v, sv]
  {
    SplitSepFree(t, '.');
    SplitAppendField(t, m);
    SplitAppendField(t + "." + m, c);
    SplitAppendField(t + "." + m + "." + c, v);
    SplitAppendField(t + "." + m + "." + c + "." + v, sv);
  }

  lemma AssemblyTemplateSplits(t: string, m: string, c: string, v: string, sv: string, o: string)
    requires '.' !in t && '.' !in m && '.' !in c && '.' !in v && '.' !in sv && '.' !in o
    ensures Split(t + "." + m + "." + c + "." + v + "." + sv + (if o != "" then "." + o else "") + ".fasta", '.')
         == [t, m, c, v, sv] + (if o == "" then [] else [o]) + ["fasta"]
  {
    var s4 := t + "." + m + "." + c + "." + v + "." + sv;
    SplitFiveFields(t, m, c, v, sv);
    if o != "" {
      SplitAppendField(s4, o);
      assert s4 + ("." + o) == s4 + "." + o;
      SplitFastaSuffix(s4 + "." + o);
    } else {
      assert s4 + "" == s4;
      SplitFastaSuffix(s4);
    }
  }

  /** The assembly formatter: sanitized text fields, `str` of the numbers, `.fasta`. */
  function CreateAssemblyIdentifier(tolId: string, sampleIdentifier: string, consortium: string,
                                    version: int, subversion: int, optional: string := ""): (r: string)
    ensures Split(r, '.') ==
      [SanitizeInput(tolId), SanitizeInput(sampleIdentifier), SanitizeInput(consortium),
       IntToString(version), IntToString(subversion)]
      + (if SanitizeInput(optional) == "" then [] else [SanitizeInput(optional)])
      + ["fasta"]
  {
    var t, m, c := SanitizeInput(tolId), SanitizeInput(sampleIdentifier), SanitizeInput(consortium);
    var o := SanitizeInput(optional);
    var v, sv := IntToString(version), IntToString(subversion);
    SanitizedHasNoDot(tolId);
    SanitizedHasNoDot(sampleIdentifier);
    SanitizedHasNoDot(consortium);
    SanitizedHasNoDot(optional);
    AssemblyTemplateSplits(t, m, c, v, sv, o);
    t + "." + m + "." + c + "." + v + "." + sv + (if o != "" then "." + o else "") + ".fasta"
  }

  /** The formatter's field list is in the pattern's classes iff each field is. */
  lemma AssemblyFieldListOf(t: string, m: string, c: string, v: string, sv: string, o: string)
    ensures IsAssemblyFieldList([t, m, c, v, sv] + (if o == "" then [] else [o]) + ["fasta"])
        <==> AlnumWord(t) && AlnumWord(m) && AlnumWord(c) && DigitWord(v) && DigitWord(sv) && AllAlnum(o)
  {
    var fields := [t, m, c, v, sv] + (if o == "" then [] else [o]) + ["fasta"];
    if o == "" {
      assert fields == [t, m, c, v, sv, "fasta"];
    } else {
      assert fields == [t, m, c, v, sv, o, "fasta"];
    }
  }

  /**
   * The validator accepts the formatter's output exactly when the sanitized
   * tol id, sample id and consortium are non-empty and hyphen-free, the
   * sanitized optional part is hyphen-free (it may be empty), and neither
   * number is negative.
   */
  lemma AssemblyRoundTrip(tolId: string, sampleIdentifier: string, consortium: string,
                          version: int, subversion: int, optional: string)
    ensures ValidateAssemblyIdentifier(
              CreateAssemblyIdentifier(tolId, sampleIdentifier, consortium, version, subversion, optional))
        <==> && SanitizeInput(tolId) != "" && '-' !in SanitizeInput(tolId)
             && SanitizeInput(sampleIdentifier) != "" && '-' !in SanitizeInput(sampleIdentifier)
             && SanitizeInput(consortium) != "" && '-' !in SanitizeInput(consortium)
             && version >= 0 && subversion >= 0
             && '-' !in SanitizeInput(optional)
  {
    var t, m, c := SanitizeInput(tolId), SanitizeInput(sampleIdentifier), SanitizeInput(consortium);
    var o := SanitizeInput(optional);
    var v, sv := IntToString(version), IntToString(subversion);
    SanitizedAlnumIffHyphenFree(tolId);
    SanitizedAlnumIffHyphenFree(sampleIdentifier);
    SanitizedAlnumIffHyphenFree(consortium);
    SanitizedAlnumIffHyphenFree(optional);
    AssemblyFieldListOf(t, m, c, v, sv, o);
  }

  /* ---------------------------------------------------- Gene-model identifier */

  /** The entity tags of the gene-model pattern: `pan|g|p|t`. */
  predicate IsEntityTag(e: string) {
    e == "pan" || e == "g" || e == "p" || e == "t"
  }

  /** The fields of `PREFIX.ENTITY.NNNNNN`, each in the class the pattern gives it. */
  predicate IsGeneModelFieldList(fields: seq<string>) {
    && |fields| == 3
    && AlnumWord(fields[0])
    && IsEntityTag(fields[1])
    && |fields[2]| == ID_WIDTH && AllDigits(fields[2])
  }

  /** The anchored gene-model pattern: `s` is the `.`-join of fields in their classes. */
  ghost predicate MatchesGeneModelPattern(s: string) {
    exists fields :: IsGeneModelFieldList(fields) && Join(fields, '.') == s
  }

  lemma GeneModelPatternBySplit(s: string)
    ensures MatchesGeneModelPattern(s) <==> IsGeneModelFieldList(Split(s, '.'))
  {
    if IsGeneModelFieldList(Split(s, '.')) {
      JoinSplit(s, '.');
    }
    if MatchesGeneModelPattern(s) {
      var fields :| IsGeneModelFieldList(fields) && Join(fields, '.') == s;
      assert forall k :: 0 <= k < |fields| ==> AllAlnum(fields[k]);
      SplitJoin(fields, '.');
    }
  }

  function ValidateGeneModelIdentifier(s: string): (b: bool)
    ensures b <==> MatchesGeneModelPattern(s)
  {
    GeneModelPatternBySplit(s);
    IsGeneModelFieldList(Split(s, '.'))
  }

  /** Splitting `a.b.c` on `.` when no part holds a `.`. */
  lemma SplitThree(a: string, b: string, c: string)
    requires '.' !in a && '.' !in b && '.' !in c
    ensures Split(a + "." + b + "." + c, '.') == [a, b, c]
  {
    SplitAppendField(a, b);
    SplitAppendField(a + "." + b, c);
    SplitSepFree(a, '.');
  }

  /**
   * On `PREFIX.ENTITY.NUMBER` with dot-free parts, the validator accepts
   * exactly a non-empty alphanumeric prefix, one of the four entity tags and
   * exactly six digits: a wrong tag or a wrong digit count is rejected.
   */
  lemma GeneModelValidateParts(prefix: string, entity: string, number: string)
    requires '.' !in prefix && '.' !in entity && '.' !in number
    ensures ValidateGeneModelIdentifier(prefix + "." + entity + "." + number)
        <==> AlnumWord(prefix) && IsEntityTag(entity) && |number| == ID_WIDTH && AllDigits(number)
  {
    SplitThree(prefix, entity, number);
  }

  /** `str(n).zfill(6)` of an in-range id number: six digits whose value is `n`. */
  lemma IdSegment(n: int)
    requires 0 <= n <= MAX_ID_NUMBER
    ensures var z := ZFill(IntToString(n), ID_WIDTH); |z| == ID_WIDTH && AllDigits(z) && Value(z) == n
  {
    assert Pow10(6) == 1000000;
    NatToStringLength(n, 6);
  }

  lemma GeneModelTemplateSplits(p: string, e: string, n: int)
    requires '.' !in p && '.' !in e && 0 <= n <= MAX_ID_NUMBER
    ensures var fields := Split(p + "." + e + "." + ZFill(IntToString(n), ID_WIDTH), '.');
      && |fields| == 3 && fields[0] == p && fields[1] == e
      && |fields[2]| == ID_WIDTH && AllDigits(fields[2]) && Value(fields[2]) == n
  {
    var num := ZFill(IntToString(n), ID_WIDTH);
    IdSegment(n);
    SplitSepFree(p, '.');
    SplitAppendField(p, e);
    SplitAppendField(p + "." + e, num);
  }

  /** The gene-model formatter; an id number outside `0..MAX_ID_NUMBER` is an error. */
  function CreateGeneModelIdentifier(assemblyPrefix: string, entity: string, idNumber: int)
    : (r: Result<string, GaanError>)
    ensures r.Failure? <==> !(0 <= idNumber <= MAX_ID_NUMBER)
    ensures r.Failure? ==> r.error == IdNumberOutOfRange(idNumber, MAX_ID_NUMBER)
    ensures r.Success? ==>
      var fields := Split(r.value, '.');
      && |fields| == 3
      && fields[0] == SanitizeInput(assemblyPrefix)
      && fields[1] == SanitizeInput(entity)
      && |fields[2]| == ID_WIDTH && AllDigits(fields[2]) && Value(fields[2]) == idNumber
  {
    var prefix := SanitizeInput(assemblyPrefix);
    var ent := SanitizeInput(entity);
    SanitizedHasNoDot(assemblyPrefix);
    SanitizedHasNoDot(entity);
    if !(0 <= idNumber <= MAX_ID_NUMBER) then
      Failure(IdNumberOutOfRange(idNumber, MAX_ID_NUMBER))
    else
      var num := ZFill(IntToString(idNumber), ID_WIDTH);
      GeneModelTemplateSplits(prefix, ent, idNumber);
      Success(prefix + "." + ent + "." + num)
  }

  /**
   * The validator accepts the formatter's output exactly when the sanitized
   * prefix is non-empty and hyphen-free, the sanitized entity is one of the
   * four tags and the id number is in range.
   */
  lemma GeneModelRoundTrip(assemblyPrefix: string, entity: string, idNumber: int)
    ensures var r := CreateGeneModelIdentifier(assemblyPrefix, entity, idNumber);
      (r.Success? && ValidateGeneModelIdentifier(r.value))
        <==> && SanitizeInput(assemblyPrefix) != "" && '-' !in SanitizeInput(assemblyPrefix)
             && IsEntityTag(SanitizeInput(entity))
             && 0 <= idNumber <= MAX_ID_NUMBER
  {
    SanitizedAlnumIffHyphenFree(assemblyPrefix);
  }

  /* ------------------------------------------- Numbers given as text (`int()`) */

  /**
   * The assembly formatter called with its numbers as text: `int(version)`
   * runs before `int(subversion)`, and text that is not a decimal numeral is
   * an invalid numeric argument.
   */
  function CreateAssemblyIdentifierFromText(tolId: string, sampleIdentifier: string, consortium: string,
                                            versionText: string, subversionText: string,
                                            optional: string := ""): (r: Result<string, GaanError>)
    ensures r.Failure? <==> !IsDecimalNumeral(versionText) || !IsDecimalNumeral(subversionText)
    ensures r.Failure? ==> r.error == InvalidNumericArgument(
      if !IsDecimalNumeral(versionText) then versionText else subversionText)
    ensures r.Success? ==> r.value == CreateAssemblyIdentifier(
      tolId, sampleIdentifier, consortium,
      ParseDecimal(versionText).value, ParseDecimal(subversionText).value, optional)
  {
    match ParseDecimal(versionText)
    case None => Failure(InvalidNumericArgument(versionText))
    case Some(version) =>
      match ParseDecimal(subversionText)
      case None => Failure(InvalidNumericArgument(subversionText))
      case Some(subversion) =>
        Success(CreateAssemblyIdentifier(tolId, sampleIdentifier, consortium, version, subversion, optional))
  }

  /** The gene-model formatter called with its id number as text. */
  function CreateGeneModelIdentifierFromText(assemblyPrefix: string, entity: string, idText: string)
    : (r: Result<string, GaanError>)
    ensures !IsDecimalNumeral(idText) ==> r == Failure(InvalidNumericArgument(idText))
    ensures IsDecimalNumeral(idText) ==>
      r == CreateGeneModelIdentifier(assemblyPrefix, entity, ParseDecimal(idText).value)
  {
    match ParseDecimal(idText)
    case None => Failure(InvalidNumericArgument(idText))
    case Some(idNumber) => CreateGeneModelIdentifier(assemblyPrefix, entity, idNumber)
  }

  /** Passing the numbers as their `str` text gives what passing the numbers gives. */
  lemma FromTextAgreesWithTyped(tolId: string, sampleIdentifier: string, consortium: string,
                                version: int, subversion: int, optional: string,
                                assemblyPrefix: string, entity: string, idNumber: int)
    ensures CreateAssemblyIdentifierFromText(tolId, sampleIdentifier, consortium,
              IntToString(version), IntToString(subversion), optional)
         == Success(CreateAssemblyIdentifier(tolId, sampleIdentifier, consortium, version, subversion, optional))
    ensures CreateGeneModelIdentifierFromText(assemblyPrefix, entity, IntToString(idNumber))
         == CreateGeneModelIdentifier(assemblyPrefix, entity, idNumber)
  {
    IntToStringParses(version);
    IntToStringParses(subversion);
    IntToStringParses(idNumber);
  }
}
