/**
 * The `String` extensions of the migration core: version-number parsing,
 * consistency names, the embedded metadata header and keyspace-creation
 * detection. SHA-256 is not here: it is an opaque function of the
 * contents, passed in where files are loaded.
 */
module StringExtensions {
  import opened Wrappers
  import opened Text

  // ----- Swift `Int(_: String)` -----

  /** The range of Swift's 64-bit `Int`. */
  const INT_MIN: int := -0x8000_0000_0000_0000
  const INT_MAX: int := 0x7FFF_FFFF_FFFF_FFFF

  predicate IsDigit(c: char) {
    '0' <= c <= '9'
  }

  predicate AllDigits(s: string) {
    forall k :: 0 <= k < |s| ==> IsDigit(s[k])
  }

  function Pow10(n: nat): nat {
    if n == 0 then 1 else 10 * Pow10(n - 1)
  }

  /** The value of a string of decimal digits. */
  function DecimalValue(s: string): nat
    requires AllDigits(s)
  {
    if s == [] then 0
    else (s[0] as int - '0' as int) * Pow10(|s| - 1) + DecimalValue(s[1..])
  }

  /**
   * Swift's `Int(_: String)`: an optional `+` or `-`, then one or more
   * decimal digits, and the value must fit a 64-bit `Int`.
   */
  function ParseInt(t: string): (r: Option<int>)
    ensures r.Some? ==> INT_MIN <= r.value <= INT_MAX
    ensures r.Some? ==>
      |t| > 0 && var digits := if t[0] == '+' || t[0] == '-' then t[1..] else t; |digits| > 0 && AllDigits(digits)
    ensures |t| > 0 && AllDigits(t) ==> r == if DecimalValue(t) <= INT_MAX then Some(DecimalValue(t)) else None
  {
    if |t| == 0 then None
    else
      var digits := if t[0] == '+' || t[0] == '-' then t[1..] else t;
      if |digits| == 0 || !AllDigits(digits) then None
      else
        var v: int := if t[0] == '-' then 0 - DecimalValue(digits) else DecimalValue(digits);
        if INT_MIN <= v <= INT_MAX then Some(v) else None
  }

  // ----- versionInt -----

  function StripLeadingZeros(s: string): (r: string)
    ensures |r| <= |s| && r == s[|s| - |r|..]
  {
    if |s| > 0 && s[0] == '0' then StripLeadingZeros(s[1..]) else s
  }

  /**
   * `versionInt`: trim spaces and tabs, drop every leading `0`, then parse.
   * A token that becomes empty gives 0 when the ORIGINAL was non-empty.
   */
  function VersionIntOf(s: string): Option<int> {
    var finalized := StripLeadingZeros(Trim(s, IsSpace));
    if finalized == [] && s != [] then Some(0) else ParseInt(finalized)
  }

  /** `versionInt` as the source computes it, with a loop that removes one `0` at a time. */
  method VersionInt(s: string) returns (r: Option<int>)
    ensures r == VersionIntOf(s)
  {
    var finalized := Trim(s, IsSpace);
    while |finalized| > 0 && finalized[0] == '0'
      invariant StripLeadingZeros(finalized) == StripLeadingZeros(Trim(s, IsSpace))
    {
      finalized := finalized[1..];
    }
    if |finalized| == 0 && |s| > 0 {
      return Some(0);
    }
    r := ParseInt(finalized);
  }

  lemma {:induction false} StripLeadingZerosValue(s: string)
    requires AllDigits(s)
    ensures AllDigits(StripLeadingZeros(s))
    ensures DecimalValue(StripLeadingZeros(s)) == DecimalValue(s)
    ensures StripLeadingZeros(s) == [] || StripLeadingZeros(s)[0] != '0'
  {
    if |s| > 0 && s[0] == '0' {
      StripLeadingZerosValue(s[1..]);
    }
  }

  lemma DigitsAreNotTrimmed(s: string)
    requires |s| > 0 && AllDigits(s)
    ensures Trim(s, IsSpace) == s
  {
    assert TrimStart(s, IsSpace) == s;
  }

  /** Digits reach the zero-stripping step of `versionInt` untouched by its trim. */
  lemma DigitsStripAlike(s: string)
    requires |s| > 0 && AllDigits(s)
    ensures StripLeadingZeros(Trim(s, IsSpace)) == StripLeadingZeros(s)
  {
    DigitsAreNotTrimmed(s);
  }

  lemma ParseDigits(f: string)
    requires |f| > 0 && AllDigits(f) && DecimalValue(f) <= INT_MAX
    ensures ParseInt(f) == Some(DecimalValue(f))
  {
    assert IsDigit(f[0]);
  }

  /** A string of digits (leading zeros allowed) gives its decimal value, when that fits an `Int`. */
  lemma VersionIntOfDigits(s: string)
    requires |s| > 0 && AllDigits(s) && DecimalValue(s) <= INT_MAX
    ensures VersionIntOf(s) == Some(DecimalValue(s))
  {
    DigitsStripAlike(s);
    var f := StripLeadingZeros(s);
    StripLeadingZerosValue(s);
    if f != [] {
      ParseDigits(f);
    }
  }

  lemma {:induction false} ZerosStripToEmpty(s: string)
    requires forall k :: 0 <= k < |s| ==> s[k] == '0'
    ensures StripLeadingZeros(s) == []
  {
    if |s| > 0 {
      ZerosStripToEmpty(s[1..]);
    }
  }

  /** A non-empty token that is only zeros once trimmed (e.g. "000", "  ") gives 0. */
  lemma VersionIntOfZeros(s: string)
    requires s != []
    requires forall k :: 0 <= k < |Trim(s, IsSpace)| ==> Trim(s, IsSpace)[k] == '0'
    ensures VersionIntOf(s) == Some(0)
  {
    ZerosStripToEmpty(Trim(s, IsSpace));
  }

  /**
   * Once trimmed and stripped of zeros, a token that is not an optional sign
   * followed by digits does not parse: `1a`, `--1` and a lone `+` give none.
   */
  lemma VersionIntOfRejects(s: string)
    requires var f := StripLeadingZeros(Trim(s, IsSpace));
      f != [] && var digits := if f[0] == '+' || f[0] == '-' then f[1..] else f; (digits == [] || !AllDigits(digits))
    ensures VersionIntOf(s) == None
  {
  }

  /** Digits whose value does not fit a 64-bit `Int` give none. */
  lemma VersionIntOfOutOfRange(s: string)
    requires |s| > 0 && AllDigits(s) && DecimalValue(s) > INT_MAX
    ensures VersionIntOf(s) == None
  {
    DigitsStripAlike(s);
    var f := StripLeadingZeros(s);
    StripLeadingZerosValue(s);
  }

  lemma RejectsUntrimmed(f: string)
    requires |f| > 0 && !IsSpace(f[0]) && !IsSpace(f[|f| - 1]) && f[0] != '0'
    requires var digits := if f[0] == '+' || f[0] == '-' then f[1..] else f; (digits == [] || !AllDigits(digits))
    ensures VersionIntOf(f) == None
  {
    NotTrimmed(f);
    VersionIntOfRejects(f);
  }

  /** `1a`, `--1` and a lone `+` are not versions. */
  lemma VersionIntRejectsExamples(s: string)
    requires s == "1a" || s == "--1" || s == "+"
    ensures VersionIntOf(s) == None
  {
    if s == "1a" {
      assert !IsDigit(s[1]);
    } else if s == "--1" {
      assert s[1..][0] == '-';
    } else {
      assert s[1..] == [];
    }
    RejectsUntrimmed(s);
  }

  /** The empty token does not parse. */
  lemma VersionIntOfEmpty()
    ensures VersionIntOf("") == None
  {
  }

  /** "0123" gives 123. */
  lemma VersionIntExample()
    ensures VersionIntOf("0123") == Some(123)
  {
    assert DecimalValue("0123") == 123;
    VersionIntOfDigits("0123");
  }

  lemma {:induction false} StripZerosBefore(z: string, rest: string)
    requires forall k :: 0 <= k < |z| ==> z[k] == '0'
    requires rest == [] || rest[0] != '0'
    ensures StripLeadingZeros(z + rest) == rest
  {
    if z != [] {
      assert (z + rest)[0] == '0';
      assert (z + rest)[1..] == z[1..] + rest;
      StripZerosBefore(z[1..], rest);
    } else {
      assert z + rest == rest;
    }
  }

  lemma ParseSigned(sign: char, d: string)
    requires sign == '+' || sign == '-'
    requires |d| > 0 && AllDigits(d) && DecimalValue(d) <= INT_MAX
    ensures var v: int := DecimalValue(d);
      ParseInt([sign] + d) == Some(if sign == '-' then -v else v)
  {
    assert ([sign] + d)[1..] == d;
  }

  lemma NotTrimmed(s: string)
    requires |s| > 0 && !IsSpace(s[0]) && !IsSpace(s[|s| - 1])
    ensures Trim(s, IsSpace) == s
  {
    assert TrimStart(s, IsSpace) == s;
  }

  lemma SignAfterZerosIsKept(z: string, sign: char, d: string)
    requires forall k :: 0 <= k < |z| ==> z[k] == '0'
    requires sign == '+' || sign == '-'
    requires |d| > 0 && AllDigits(d)
    ensures StripLeadingZeros(Trim(z + [sign] + d, IsSpace)) == [sign] + d
  {
    var t := [sign] + d;
    var s := z + t;
    assert z + [sign] + d == s;
    assert !IsSpace(s[0]) by {
      var c := if z == [] then sign else z[0];
      assert s[0] == c;
    }
    assert !IsSpace(s[|s| - 1]) by {
      assert IsDigit(d[|d| - 1]);
      assert s[|s| - 1] == d[|d| - 1];
    }
    NotTrimmed(s);
    StripZerosBefore(z, t);
  }

  /**
   * The final parse accepts a sign, even one that follows leading zeros:
   * "-3" gives -3 and "00+7" gives 7.
   */
  lemma VersionIntOfSignAfterZeros(z: string, sign: char, d: string)
    requires forall k :: 0 <= k < |z| ==> z[k] == '0'
    requires sign == '+' || sign == '-'
    requires |d| > 0 && AllDigits(d) && DecimalValue(d) <= INT_MAX
    ensures var v: int := DecimalValue(d);
      VersionIntOf(z + [sign] + d) == Some(if sign == '-' then -v else v)
  {
    SignAfterZerosIsKept(z, sign, d);
    ParseSigned(sign, d);
  }

  // ----- cassandraConsistency -----

  /** The consistency levels a configuration or a migration file can name. */
  datatype Consistency = Any | One | Two | Three | Quorum | Serial

  function ConsistencyName(c: Consistency): string {
    match c
    case Any => "any"
    case One => "one"
    case Two => "two"
    case Three => "three"
    case Quorum => "quorum"
    case Serial => "serial"
  }

  /** `cassandraConsistency`: a closed, case-sensitive mapping from six names. */
  function ConsistencyOf(s: string): Option<Consistency> {
    match s
    case "one" => Some(One)
    case "two" => Some(Two)
    case "three" => Some(Three)
    case "quorum" => Some(Quorum)
    case "serial" => Some(Serial)
    case "any" => Some(Any)
    case _ => None
  }

  /** A name maps to a level exactly when it is that level's name. */
  lemma ConsistencyNames(s: string, c: Consistency)
    ensures ConsistencyOf(s) == Some(c) <==> s == ConsistencyName(c)
  {
  }

  /** Exactly six names are recognised; "all" and upper-case spellings are not. */
  lemma ConsistencyRecognised(s: string)
    ensures ConsistencyOf(s).Some? <==> s in {"one", "two", "three", "quorum", "serial", "any"}
    ensures ConsistencyOf("all") == None && ConsistencyOf("ONE") == None
  {
  }

  // ----- extractInternalMetadata -----

  /** `MigrationFileInternalMetadata`: the optional overrides a file may embed. */
  datatype InternalMetadata = InternalMetadata(
    description: Option<string>,
    consistency: Option<string>,
    invocationDelay: Option<int>)

  /** The YAML decode of the `metadata:` document; `None` when it fails. */
  type Decoder = string -> Option<InternalMetadata>

  /** Each line of the contents, trimmed of whitespace and newlines. */
  function TrimmedLines(contents: string): (r: seq<string>)
    ensures |r| == |Lines(contents)| >= 1
  {
    var lines := Lines(contents);
    seq(|lines|, k requires 0 <= k < |lines| => Trim(lines[k], IsSpaceOrNewline))
  }

  predicate IsMetadataMarker(line: string) {
    line == "metadata:" || line == "-- metadata:" || line == "// metadata:"
  }

  /** The lines up to and including the first empty one. */
  function MetadataBlock(lines: seq<string>): (r: seq<string>)
    ensures |r| <= |lines| && r == lines[..|r|]
    ensures forall k :: 0 <= k < |r| - 1 ==> r[k] != ""
    ensures |r| < |lines| ==> |r| > 0 && r[|r| - 1] == ""
    ensures |lines| > 0 ==> |r| > 0
  {
    if lines == [] then []
    else if lines[0] == "" then [lines[0]]
    else [lines[0]] + MetadataBlock(lines[1..])
  }

  /** A line that starts with `-- ` or `// ` loses those three characters. */
  function StripCommentPrefix(line: string): string {
    if HasPrefix(line, "-- ") || HasPrefix(line, "// ") then line[3..] else line
  }

  /** The text handed to the YAML decoder: the stripped block joined by newlines. */
  function MetadataText(lines: seq<string>): string {
    var block := MetadataBlock(lines);
    Join(seq(|block|, k requires 0 <= k < |block| => StripCommentPrefix(block[k])), "\n")
  }

  function InternalMetadataOf(contents: string, decode: Decoder): Option<InternalMetadata> {
    var lines := TrimmedLines(contents);
    if !IsMetadataMarker(lines[0]) then None else decode(MetadataText(lines))
  }

  /** The source's `finished`-flag loop: collect lines until one is empty, that one included. */
  method CollectMetadataLines(lines: seq<string>) returns (metadataLines: seq<string>)
    ensures metadataLines == MetadataBlock(lines)
  {
    var finished := false;
    metadataLines := [];
    var i := 0;
    while i < |lines|
      invariant 0 <= i <= |lines|
      invariant finished ==> metadataLines == MetadataBlock(lines)
      invariant !finished ==> metadataLines + MetadataBlock(lines[i..]) == MetadataBlock(lines)
    {
      if !finished {
        assert lines[i..][1..] == lines[i + 1..];
        if lines[i] == "" {
          finished := true;
        }
        metadataLines := metadataLines + [lines[i]];
      }
      i := i + 1;
    }
  }

  /** `extractInternalMetadata`: check the marker, collect the block, strip comment prefixes, decode. */
  method ExtractInternalMetadata(contents: string, decode: Decoder) returns (r: Option<InternalMetadata>)
    ensures r == InternalMetadataOf(contents, decode)
  {
    var lines := TrimmedLines(contents);
    if !IsMetadataMarker(lines[0]) {
      return None;
    }
    var metadataLines := CollectMetadataLines(lines);
    var stripped := seq(|metadataLines|, k requires 0 <= k < |metadataLines| => StripCommentPrefix(metadataLines[k]));
    r := decode(Join(stripped, "\n"));
  }

  /** The block ends at the first empty line: what follows it never takes part. */
  lemma {:induction false} MetadataBlockStopsAtFirstBlank(p: seq<string>, q: seq<string>)
    requires forall k :: 0 <= k < |p| ==> p[k] != ""
    ensures MetadataBlock(p + [""] + q) == p + [""]
  {
    if p != [] {
      assert (p + [""] + q)[1..] == p[1..] + [""] + q;
      MetadataBlockStopsAtFirstBlank(p[1..], q);
      assert p == [p[0]] + p[1..];
    }
  }

  /**
   * Two files whose trimmed lines agree up to the first empty line carry the
   * same metadata, whatever follows.
   */
  lemma MetadataIgnoresLinesAfterBlank(c1: string, c2: string, p: seq<string>, q1: seq<string>, q2: seq<string>, decode: Decoder)
    requires forall k :: 0 <= k < |p| ==> p[k] != ""
    requires TrimmedLines(c1) == p + [""] + q1
    requires TrimmedLines(c2) == p + [""] + q2
    ensures InternalMetadataOf(c1, decode) == InternalMetadataOf(c2, decode)
  {
    MetadataBlockStopsAtFirstBlank(p, q1);
    MetadataBlockStopsAtFirstBlank(p, q2);
    assert TrimmedLines(c1)[0] == TrimmedLines(c2)[0];
  }

  /** A leading blank line hides the header: there is no metadata. */
  lemma LeadingBlankLineMeansNoMetadata(n: char, rest: string, decode: Decoder)
    requires IsNewline(n)
    ensures InternalMetadataOf([n] + rest, decode) == None
  {
    assert Lines([n] + rest)[0] == "";
  }

  /** Metadata is only ever decoded from a file whose first trimmed line is a marker. */
  lemma MetadataNeedsMarker(contents: string, decode: Decoder)
    requires InternalMetadataOf(contents, decode).Some?
    ensures IsMetadataMarker(TrimmedLines(contents)[0])
    ensures InternalMetadataOf(contents, decode) == decode(MetadataText(TrimmedLines(contents)))
  {
  }

  // ----- detectKeyspaceCreation -----

  predicate CreatesKeyspace(line: string) {
    HasPrefix(Trim(Lower(line), IsSpaceOrNewline), "create keyspace")
  }

  /** `detectKeyspaceCreation`: some line, lower-cased and trimmed, starts with `create keyspace`. */
  predicate DetectKeyspaceCreation(contents: string) {
    var lines := Lines(contents);
    exists k :: 0 <= k < |lines| && CreatesKeyspace(lines[k])
  }

  lemma LowerKeepsPrefix(s: string, a: string)
    requires HasPrefix(s, a)
    ensures HasPrefix(Lower(s), Lower(a))
  {
    assert Lower(s)[..|a|] == Lower(a);
  }

  lemma {:induction false} TrimStartSkipsIndent(indent: string, x: string, drop: char -> bool)
    requires forall k :: 0 <= k < |indent| ==> drop(indent[k])
    ensures TrimStart(indent + x, drop) == TrimStart(x, drop)
  {
    if indent != [] {
      assert (indent + x)[0] == indent[0];
      assert (indent + x)[1..] == indent[1..] + x;
      TrimStartSkipsIndent(indent[1..], x, drop);
    } else {
      assert indent + x == x;
    }
  }

  lemma LowerConcat(a: string, b: string)
    ensures Lower(a + b) == Lower(a) + Lower(b)
  {
  }

  lemma LowerIndent(indent: string)
    requires forall k :: 0 <= k < |indent| ==> IsSpace(indent[k])
    ensures forall k :: 0 <= k < |Lower(indent)| ==> IsSpaceOrNewline(Lower(indent)[k])
  {
    forall k | 0 <= k < |Lower(indent)| ensures IsSpaceOrNewline(Lower(indent)[k]) {
      assert IsSpace(indent[k]);
    }
  }

  lemma TrimSkipsIndent(indent: string, x: string, drop: char -> bool)
    requires forall k :: 0 <= k < |indent| ==> drop(indent[k])
    ensures Trim(indent + x, drop) == Trim(x, drop)
  {
    TrimStartSkipsIndent(indent, x, drop);
  }

  lemma KeywordSurvivesLowerAndTrim(rest: string, keyword: string)
    requires Lower(keyword) == "create keyspace"
    requires HasPrefix(rest, keyword)
    ensures HasPrefix(Trim(Lower(rest), IsSpaceOrNewline), "create keyspace")
  {
    LowerKeepsPrefix(rest, keyword);
    var phrase := "create keyspace";
    assert phrase[0] == 'c' && phrase[|phrase| - 1] == 'e';
    TrimKeepsPrefix(Lower(rest), phrase, IsSpaceOrNewline);
  }

  /** A line that starts, after indentation, with `create keyspace` in any letter case creates a keyspace. */
  lemma CreatesKeyspaceWhenPrefixed(line: string, indent: string, keyword: string)
    requires forall k :: 0 <= k < |indent| ==> IsSpace(indent[k])
    requires Lower(keyword) == "create keyspace"
    requires HasPrefix(line, indent + keyword)
    ensures CreatesKeyspace(line)
  {
    var rest := line[|indent|..];
    assert HasPrefix(rest, keyword) by {
      assert line[..|indent + keyword|] == indent + keyword;
      assert rest[..|keyword|] == line[..|indent + keyword|][|indent|..];
    }
    assert line == indent + rest;
    IndentedLine(indent, rest, keyword);
  }

  /** A line made of an indent and text that starts with the keyword. */
  lemma IndentedLine(indent: string, rest: string, keyword: string)
    requires forall k :: 0 <= k < |indent| ==> IsSpace(indent[k])
    requires Lower(keyword) == "create keyspace"
    requires HasPrefix(rest, keyword)
    ensures CreatesKeyspace(indent + rest)
  {
    assert Lower(indent + rest) == Lower(indent) + Lower(rest) by {
      LowerConcat(indent, rest);
    }
    assert Trim(Lower(indent + rest), IsSpaceOrNewline) == Trim(Lower(rest), IsSpaceOrNewline) by {
      LowerIndent(indent);
      TrimSkipsIndent(Lower(indent), Lower(rest), IsSpaceOrNewline);
    }
    KeywordSurvivesLowerAndTrim(rest, keyword);
  }

  lemma KeywordHasNoNewline(indent: string, keyword: string)
    requires forall k :: 0 <= k < |indent| ==> IsSpace(indent[k])
    requires Lower(keyword) == "create keyspace"
    ensures forall k :: 0 <= k < |indent + keyword| ==> !IsNewline((indent + keyword)[k])
  {
    forall k | 0 <= k < |indent + keyword| ensures !IsNewline((indent + keyword)[k]) {
      if k < |indent| {
        assert IsSpace(indent[k]);
      } else {
        assert LowerChar(keyword[k - |indent|]) == "create keyspace"[k - |indent|];
      }
    }
  }

  lemma DetectsKeyspaceLine(indent: string, keyword: string, tail: string)
    requires forall k :: 0 <= k < |indent| ==> IsSpace(indent[k])
    requires Lower(keyword) == "create keyspace"
    ensures CreatesKeyspace(Lines(indent + keyword + tail)[0])
  {
    KeywordHasNoNewline(indent, keyword);
    FirstLineStartsWith(indent + keyword, tail);
    CreatesKeyspaceWhenPrefixed(Lines(indent + keyword + tail)[0], indent, keyword);
  }

  /** A keyspace-creation line is found on the first line or after any newline. */
  lemma DetectsKeyspaceCreation(before: string, n: char, indent: string, keyword: string, tail: string)
    requires IsNewline(n)
    requires forall k :: 0 <= k < |indent| ==> IsSpace(indent[k])
    requires Lower(keyword) == "create keyspace"
    ensures DetectKeyspaceCreation(indent + keyword + tail)
    ensures DetectKeyspaceCreation(before + [n] + indent + keyword + tail)
  {
    DetectsKeyspaceLine(indent, keyword, tail);
    var x := indent + keyword + tail;
    assert before + [n] + indent + keyword + tail == before + [n] + x;
    LinesAtNewline(before, n, x);
    var all := Lines(before + [n] + x);
    assert all[|Lines(before)|] == Lines(x)[0];
  }
}
