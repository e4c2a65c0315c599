/**
 * The MIME-Version mail header field (section 4 of RFC 2045): parsing a
 * header line into a header object and printing it back.
 */
module MailHeader {
  import opened Wrappers
  import opened PhpStrings

  const FieldName: string := "MIME-Version"
  const DefaultVersion: string := "1.0"

  /** The exception fromString throws for a line of another header. */
  datatype HeaderError = InvalidArgument(message: string)

  const InvalidHeaderLine := InvalidArgument("Invalid header line for MIME-Version string")

  /** The format argument of getFieldValue; this header ignores it. */
  datatype HeaderFormat = FormatRaw | FormatEncoded

  /** ": " starts at position j of line. */
  predicate SeparatorAt(line: string, j: nat) {
    j + 1 < |line| && line[j] == ':' && line[j + 1] == ' '
  }

  predicate ContainsSeparator(s: string) {
    exists j | 0 <= j < |s| :: SeparatorAt(s, j)
  }

  /** The first position at or after from where ": " starts, if any. */
  function FindSeparator(line: string, from: nat): (r: Option<nat>)
    requires from <= |line|
    ensures r.Some? ==> from <= r.value && SeparatorAt(line, r.value)
    ensures r.Some? ==> forall j | from <= j < r.value :: !SeparatorAt(line, j)
    ensures r.None? ==> forall j | from <= j < |line| :: !SeparatorAt(line, j)
    decreases |line| - from
  {
    if from + 1 >= |line| then None
    else if SeparatorAt(line, from) then Some(from)
    else FindSeparator(line, from + 1)
  }

  /**
   * list($name, $value) = explode(': ', $line, 2): the line is cut at the
   * first ": " only; without one, the whole line is the name and the value
   * is null.
   */
  function SplitHeaderLine(line: string): (r: (string, Option<string>))
    ensures !ContainsSeparator(r.0)
    ensures r.1.Some? ==> line == r.0 + ": " + r.1.value
    ensures r.1.None? ==> r.0 == line
  {
    match FindSeparator(line, 0)
    case None => (line, None)
    case Some(k) =>
      var name := line[..k];
      assert forall j | 0 <= j < |name| :: SeparatorAt(name, j) ==> SeparatorAt(line, j);
      assert line == name + ": " + line[k + 2..];
      (name, Some(line[k + 2..]))
  }

  /** A line whose name holds no ": " is cut right after the name, even when the value holds ": ". */
  lemma SplitAfterName(name: string, value: string)
    requires !ContainsSeparator(name)
    ensures SplitHeaderLine(name + ": " + value) == (name, Some(value))
  {
    var line := name + ": " + value;
    assert SeparatorAt(line, |name|);
    forall j | 0 <= j < |name| ensures !SeparatorAt(line, j) {
      if j + 1 < |name| {
        assert !SeparatorAt(name, j);
        assert line[j] == name[j] && line[j + 1] == name[j + 1];
      } else {
        assert line[j + 1] == ':';
      }
    }
    assert FindSeparator(line, 0) == Some(|name|);
    assert line[..|name|] == name;
    assert line[|name| + 2..] == value;
  }

  /** The recogniser for \d+\.\d+: the end of the run of digits that starts at from. */
  function ScanDigits(s: string, from: nat): (end: nat)
    requires from <= |s|
    ensures from <= end <= |s|
    ensures forall i | from <= i < end :: IsDigit(s[i])
    ensures end < |s| ==> !IsDigit(s[end])
    decreases |s| - from
  {
    if from < |s| && IsDigit(s[from]) then ScanDigits(s, from + 1) else from
  }

  /** \d+\.\d+ matches the whole of s, scanned left to right. */
  predicate IsVersionToken(s: string)
    ensures IsVersionToken(s) ==> 3 <= |s| && IsDigit(s[0]) && IsDigit(s[|s| - 1])
  {
    var dot := ScanDigits(s, 0);
    0 < dot && dot + 1 < |s| && s[dot] == '.' && ScanDigits(s, dot + 1) == |s|
  }

  /** The same language, stated declaratively: digits, a dot, digits. */
  ghost predicate VersionGrammar(s: string) {
    exists k | 0 < k < |s| - 1 :: s[k] == '.' && AllDigits(s[..k]) && AllDigits(s[k + 1..])
  }

  lemma VersionTokenIsGrammar(s: string)
    ensures IsVersionToken(s) <==> VersionGrammar(s)
  {
    var dot := ScanDigits(s, 0);
    if IsVersionToken(s) {
      assert AllDigits(s[..dot]);
      assert AllDigits(s[dot + 1..]);
    }
    if VersionGrammar(s) {
      var k :| 0 < k < |s| - 1 && s[k] == '.' && AllDigits(s[..k]) && AllDigits(s[k + 1..]);
      assert dot == k;
    }
  }

  /**
   * preg_match('/^(?P<version>\d+\.\d+)$/', $value): the captured version.
   * Without the D modifier, $ also matches before one final "\n", which is
   * then not part of the capture.
   */
  function MatchVersion(value: string): (r: Option<string>)
    ensures r.Some? ==> IsVersionToken(r.value) && (value == r.value || value == r.value + "\n")
    ensures forall w | IsVersionToken(w) && (value == w || value == w + "\n") :: r == Some(w)
  {
    if IsVersionToken(value) then
      assert value[|value| - 1] != '\n';
      Some(value)
    else if |value| > 0 && value[|value| - 1] == '\n' && IsVersionToken(value[..|value| - 1]) then
      assert value == value[..|value| - 1] + "\n";
      Some(value[..|value| - 1])
    else
      assert forall w | value == w + "\n" :: w == value[..|value| - 1];
      None
  }

  /**
   * MimeVersion::fromString as a value: the version the new header holds,
   * or the exception for a line of another header. The name is compared
   * case-insensitively; a null value reads as "".
   */
  function ParseVersion(line: string): (r: Result<string, HeaderError>)
    ensures r.Failure? <==> ToLower(SplitHeaderLine(line).0) != "mime-version"
    ensures r.Failure? ==> r.error == InvalidHeaderLine
    ensures r.Success? ==> r.value == DefaultVersion || IsVersionToken(r.value)
  {
    var (name, value) := SplitHeaderLine(line);
    if ToLower(name) != "mime-version" then Failure(InvalidHeaderLine)
    else Success(MatchVersion(value.GetOr("")).GetOr(DefaultVersion))
  }

  /** toString: the field name, ": ", and the version; explode cuts it back into exactly those two. */
  function HeaderLine(version: string): (line: string)
    ensures SplitHeaderLine(line) == (FieldName, Some(version))
  {
    FieldNameAccepted();
    SplitAfterName(FieldName, version);
    FieldName + ": " + version
  }

  lemma FieldNameAccepted()
    ensures !ContainsSeparator(FieldName)
    ensures ToLower(FieldName) == "mime-version"
  {
    assert forall j | 0 <= j < |FieldName| :: !SeparatorAt(FieldName, j);
    assert ToLower(FieldName) == "mime-version";
  }

  /**
   * Printing then parsing: a version of the form digits.digits comes back
   * unchanged, the same followed by one "\n" comes back without it, and any
   * other version comes back as the default "1.0".
   */
  lemma HeaderLineRoundTrip(version: string)
    ensures ParseVersion(HeaderLine(version)) == Success(MatchVersion(version).GetOr(DefaultVersion))
    ensures IsVersionToken(version) ==> ParseVersion(HeaderLine(version)) == Success(version)
  {
    FieldNameAccepted();
    SplitAfterName(FieldName, version);
  }

  /** Any capitalisation of the field name is accepted, and the value keeps any ": " it holds. */
  lemma NameIsCaseInsensitive(name: string, value: string)
    requires !ContainsSeparator(name)
    requires ToLower(name) == "mime-version"
    ensures ParseVersion(name + ": " + value) == Success(MatchVersion(value).GetOr(DefaultVersion))
  {
    SplitAfterName(name, value);
  }

  /** A line without ": " is accepted only when it is the bare field name, and then keeps the default. */
  lemma LineWithoutSeparator(line: string)
    requires !ContainsSeparator(line)
    ensures ParseVersion(line).Success? <==> ToLower(line) == "mime-version"
    ensures ParseVersion(line).Success? ==> ParseVersion(line).value == DefaultVersion
  {
    assert MatchVersion("") == None;
  }

  /** A MIME-Version header object; only its version string is state. */
  class MimeVersion {
    var version: string

    constructor()
      ensures version == DefaultVersion
    {
      version := DefaultVersion;
    }

    /** fromString: a fresh header, or the exception for a line of another header. */
    static method FromString(headerLine: string) returns (r: Result<MimeVersion, HeaderError>)
      ensures r.Failure? <==> ParseVersion(headerLine).Failure?
      ensures r.Failure? ==> r.error == InvalidHeaderLine
      ensures r.Success? ==> fresh(r.value) && r.value.version == ParseVersion(headerLine).value
    {
      var (name, value) := SplitHeaderLine(headerLine);
      if ToLower(name) != "mime-version" {
        return Failure(InvalidHeaderLine);
      }
      var header := new MimeVersion();
      var matches := MatchVersion(value.GetOr(""));
      if matches.Some? {
        header.version := matches.value;
      }
      return Success(header);
    }

    /** getFieldName: the name that fromString accepts, whatever the state. */
    function GetFieldName(): (name: string)
      ensures name == "MIME-Version"
      ensures ToLower(name) == "mime-version" && !ContainsSeparator(name)
    {
      FieldNameAccepted();
      FieldName
    }

    /** getFieldValue: the version, whatever the format asked for. */
    function GetFieldValue(format: HeaderFormat): (value: string)
      reads this
      ensures value == version
    {
      version
    }

    /** toString, which fromString reads back as far as the version's form allows. */
    function ToString(): (line: string)
      reads this
      ensures line == "MIME-Version: " + version
      ensures ParseVersion(line) == Success(MatchVersion(version).GetOr(DefaultVersion))
    {
      HeaderLineRoundTrip(version);
      HeaderLine(GetFieldValue(FormatRaw))
    }

    /** setVersion stores its argument unchecked and returns the header itself. */
    method SetVersion(v: string) returns (self: MimeVersion)
      modifies this
      ensures version == v && GetVersion() == v
      ensures self == this
    {
      version := v;
      return this;
    }

    function GetVersion(): string
      reads this
    {
      version
    }
  }
}
