/**
 * `MigrationFileDescriptor`: what a migration file's NAME says about it.
 * A directory listing is filtered by an optional prefix and an optional
 * extension, each remaining name is split at the separator into a version
 * and a description, and the descriptors come back ordered by version.
 */
module MigrationFileDescriptors {
  import opened Wrappers
  import opened Text
  import opened Sorting
  import opened StringExtensions

  datatype MigrationFileDescriptor = MigrationFileDescriptor(
    path: string,
    version: int,
    fileNameDescription: string)

  /** The configured file naming: `<prefix><version><separator><description><extension>`. */
  datatype NamingScheme = NamingScheme(
    prefix: Option<string>,
    separator: string,
    extension: Option<string>)

  function VersionKey(d: MigrationFileDescriptor): int {
    d.version
  }

  /** A designated prefix and a designated extension must both be present. */
  predicate Admits(name: string, scheme: NamingScheme) {
    && (scheme.prefix.Some? ==> HasPrefix(name, scheme.prefix.value))
    && (scheme.extension.Some? ==> HasSuffix(name, scheme.extension.value))
  }

  /** Remove the first occurrence of the prefix; `range(of: "")` finds nothing, so an empty prefix removes nothing. */
  function StripPrefix(name: string, prefix: Option<string>): string {
    match prefix
    case None => name
    case Some(p) =>
      if p == [] then name
      else match IndexOf(name, p)
      case None => name
      case Some(i) => name[..i] + name[i + |p|..]
  }

  /** Everything after the version, re-joined, underscores made spaces, cut at the first dot. */
  function DescriptionOf(parts: seq<string>, separator: string): string
    requires |parts| > 1
  {
    Components(ReplaceAll(Join(parts[1..], separator), "_", " "), ".")[0]
  }

  /** The `compactMap` step for one directory entry. */
  function ParseEntry(directory: string, name: string, scheme: NamingScheme): Option<MigrationFileDescriptor> {
    if !Admits(name, scheme) then None
    else
      var parts := Components(StripPrefix(name, scheme.prefix), scheme.separator);
      if |parts| <= 1 then None
      else match VersionIntOf(parts[0])
        case None => None
        case Some(version) =>
          if version < 0 then None
          else Some(MigrationFileDescriptor(directory + "/" + name, version, DescriptionOf(parts, scheme.separator)))
  }

  /** `compactMap`: apply `f` to each element and keep the present results, in order. */
  function CompactMap<A, B>(s: seq<A>, f: A -> Option<B>): (r: seq<B>)
    ensures |r| <= |s|
  {
    if s == [] then []
    else
      var rest := CompactMap(s[1..], f);
      match f(s[0])
      case None => rest
      case Some(b) => [b] + rest
  }

  /** Every kept result is the result of some element. */
  lemma {:induction false} CompactMapSound<A, B>(s: seq<A>, f: A -> Option<B>, b: B)
    requires b in CompactMap(s, f)
    ensures exists k :: 0 <= k < |s| && f(s[k]) == Some(b)
  {
    if b in CompactMap(s[1..], f) {
      CompactMapSound(s[1..], f, b);
      var k :| 0 <= k < |s[1..]| && f(s[1..][k]) == Some(b);
      assert s[k + 1] == s[1..][k];
    } else {
      assert f(s[0]) == Some(b);
    }
  }

  /** Every present result is kept. */
  lemma {:induction false} CompactMapComplete<A, B>(s: seq<A>, f: A -> Option<B>, k: nat)
    requires k < |s| && f(s[k]).Some?
    ensures f(s[k]).value in CompactMap(s, f)
  {
    if k > 0 {
      CompactMapComplete(s[1..], f, k - 1);
      assert s[1..][k - 1] == s[k];
    }
  }

  /** `MigrationFileDescriptor.from` over a directory listing: parse each entry, then order by version. */
  function From(directory: string, listing: seq<string>, scheme: NamingScheme): (r: seq<MigrationFileDescriptor>)
    ensures SortedBy(r, VersionKey)
    ensures multiset(r) == multiset(CompactMap(listing, name => ParseEntry(directory, name, scheme)))
    ensures |r| <= |listing|
  {
    SortBy(CompactMap(listing, name => ParseEntry(directory, name, scheme)), VersionKey)
  }

  /** The result of `From` holds exactly the descriptors of the entries that parse. */
  lemma FromMembers(directory: string, listing: seq<string>, scheme: NamingScheme, d: MigrationFileDescriptor)
    ensures d in From(directory, listing, scheme)
      <==> exists k :: 0 <= k < |listing| && ParseEntry(directory, listing[k], scheme) == Some(d)
  {
    var f := name => ParseEntry(directory, name, scheme);
    var parsed := CompactMap(listing, f);
    assert d in From(directory, listing, scheme) <==> d in multiset(parsed);
    if d in parsed {
      CompactMapSound(listing, f, d);
      var k :| 0 <= k < |listing| && f(listing[k]) == Some(d);
      assert ParseEntry(directory, listing[k], scheme) == Some(d);
    }
    if exists k :: 0 <= k < |listing| && ParseEntry(directory, listing[k], scheme) == Some(d) {
      var k :| 0 <= k < |listing| && ParseEntry(directory, listing[k], scheme) == Some(d);
      assert f(listing[k]) == Some(d);
      CompactMapComplete(listing, f, k);
    }
  }

  // ----- One entry -----

  /** A name that starts with a non-empty prefix loses exactly that prefix. */
  lemma StripPrefixOfPrefixed(name: string, p: string)
    requires p != [] && HasPrefix(name, p)
    ensures StripPrefix(name, Some(p)) == name[|p|..]
  {
    assert MatchesAt(name, p, 0);
  }

  /** An empty prefix admits every name and removes nothing. */
  lemma EmptyPrefixKeepsName(name: string)
    ensures HasPrefix(name, "")
    ensures StripPrefix(name, Some("")) == name
  {
  }

  /**
   * An entry parses exactly when it passes both filters, its stripped name
   * contains the (non-empty) separator, and the text before the first
   * separator is a non-negative `versionInt`. The description step never
   * rejects an entry.
   */
  lemma ParseEntryExactly(directory: string, name: string, scheme: NamingScheme)
    ensures var stripped := StripPrefix(name, scheme.prefix);
      var head := Components(stripped, scheme.separator)[0];
      ParseEntry(directory, name, scheme).Some? <==>
        (&& Admits(name, scheme)
         && scheme.separator != [] && Contains(stripped, scheme.separator)
         && VersionIntOf(head).Some? && VersionIntOf(head).value >= 0)
  {
    ComponentsCount(StripPrefix(name, scheme.prefix), scheme.separator);
  }

  lemma NoCharAfterReplace(s: string, c: char, r: string)
    requires c !in r
    ensures c !in ReplaceAll(s, [c], r)
  {
    ReplaceAllReplacesEveryOccurrence(s, [c], r);
    var parts := Components(s, [c]);
    if c in Join(parts, r) {
      JoinChars(parts, r, c);
      var k :| 0 <= k < |parts| && c in parts[k];
      ContainsChar(parts[k], c);
    }
  }

  lemma HeadAvoids(s: string, c: char, d: char)
    requires c != d && c !in s
    ensures c !in Components(s, [d])[0] && d !in Components(s, [d])[0]
  {
    ComponentsHead(s, [d]);
    ComponentsAvoidSeparator(s, [d], 0);
    ContainsChar(Components(s, [d])[0], d);
  }

  /**
   * The description is the text after the first separator up to the first
   * dot, underscores made spaces, so it holds neither `_` nor `.`.
   */
  lemma DescriptionAfterSeparator(stripped: string, sep: string)
    requires sep != [] && Contains(stripped, sep)
    ensures |Components(stripped, sep)| > 1
    ensures var i := IndexOf(stripped, sep).value;
      var desc := DescriptionOf(Components(stripped, sep), sep);
      && desc == Components(ReplaceAll(stripped[i + |sep|..], "_", " "), ".")[0]
      && '_' !in desc && '.' !in desc
  {
    ComponentsCount(stripped, sep);
    AfterFirstSeparator(stripped, sep);
    var tail := stripped[IndexOf(stripped, sep).value + |sep|..];
    NoCharAfterReplace(tail, '_', " ");
    HeadAvoids(ReplaceAll(tail, "_", " "), '_', '.');
  }

  lemma ParseEntryFields(directory: string, name: string, scheme: NamingScheme)
    requires ParseEntry(directory, name, scheme).Some?
    ensures var d := ParseEntry(directory, name, scheme).value;
      var parts := Components(StripPrefix(name, scheme.prefix), scheme.separator);
      && Admits(name, scheme) && |parts| > 1
      && d.path == directory + "/" + name
      && Some(d.version) == VersionIntOf(parts[0]) && d.version >= 0
      && d.fileNameDescription == DescriptionOf(parts, scheme.separator)
  {
  }

  /**
   * What a parsed entry says: its name passed the filters, its path is the
   * directory joined to the name, its version is the non-negative
   * `versionInt` of the text before the first separator, and its description
   * holds neither `_` nor `.`.
   */
  lemma ParseEntrySound(directory: string, name: string, scheme: NamingScheme, d: MigrationFileDescriptor)
    requires ParseEntry(directory, name, scheme) == Some(d)
    ensures Admits(name, scheme)
    ensures d.path == directory + "/" + name
    ensures scheme.separator != [] && Contains(StripPrefix(name, scheme.prefix), scheme.separator)
    ensures var stripped := StripPrefix(name, scheme.prefix);
      var i := IndexOf(stripped, scheme.separator).value;
      Some(d.version) == VersionIntOf(stripped[..i]) && d.version >= 0
    ensures '_' !in d.fileNameDescription && '.' !in d.fileNameDescription
  {
    var stripped := StripPrefix(name, scheme.prefix);
    var sep := scheme.separator;
    var parts := Components(stripped, sep);
    ParseEntryFields(directory, name, scheme);
    ComponentsCount(stripped, sep);
    ComponentsHead(stripped, sep);
    assert parts[0] == stripped[..IndexOf(stripped, sep).value];
    DescriptionAfterSeparator(stripped, sep);
  }

  // ----- An example -----

  lemma ExampleParts(stripped: string, rest: string)
    requires stripped == "001-create_table.cql" && rest == "create_table.cql"
    ensures Components(stripped, "-") == ["001", rest]
  {
    assert IndexOf(stripped, "-") == Some(3) by {
      assert stripped[..3] == "001";
      IndexOfChar(stripped, '-', 3);
    }
    assert Components(rest, "-") == [rest] by {
      IndexOfCharAbsent(rest, '-');
    }
    assert stripped[4..] == rest && stripped[..3] == "001";
  }

  lemma ExampleDescription()
    ensures DescriptionOf(["001", "create_table.cql"], "-") == "create table"
  {
    assert ["001", "create_table.cql"][1..] == ["create_table.cql"];
    IndexOfChar("create_table.cql", '_', 6);
    IndexOfCharAbsent("table.cql", '_');
    assert "create_table.cql"[7..] == "table.cql";
    assert ReplaceAll("create_table.cql", "_", " ") == "create table.cql";
    IndexOfChar("create table.cql", '.', 12);
    assert "create table.cql"[..12] == "create table";
  }

  lemma ExampleVersion()
    ensures VersionIntOf("001") == Some(1)
  {
    VersionIntOfDigits("001");
    assert DecimalValue("001") == 1;
  }

  /** `v001-create_table.cql`, with prefix `v`, separator `-` and extension `.cql`, is version 1, "create table". */
  lemma ParseEntryExample(directory: string, name: string, scheme: NamingScheme)
    requires name == "v001-create_table.cql" && scheme == NamingScheme(Some("v"), "-", Some(".cql"))
    ensures ParseEntry(directory, name, scheme) == Some(MigrationFileDescriptor(directory + "/" + name, 1, "create table"))
  {
    var stripped := "001-create_table.cql";
    var parts := ["001", "create_table.cql"];
    assert Admits(name, scheme) by { ExampleAdmits(); }
    assert StripPrefix(name, scheme.prefix) == stripped by { ExampleStripped(); }
    assert Components(stripped, scheme.separator) == parts by { ExampleParts(stripped, "create_table.cql"); }
    assert VersionIntOf(parts[0]) == Some(1) by { ExampleVersion(); }
    assert DescriptionOf(parts, scheme.separator) == "create table" by { ExampleDescription(); }
    ParseEntryOfParts(directory, name, scheme, stripped, parts, 1);
  }

  /** The steps of `ParseEntry` on a name whose pieces are known. */
  lemma ParseEntryOfParts(directory: string, name: string, scheme: NamingScheme,
                          stripped: string, parts: seq<string>, version: int)
    requires Admits(name, scheme)
    requires StripPrefix(name, scheme.prefix) == stripped
    requires Components(stripped, scheme.separator) == parts && |parts| > 1
    requires VersionIntOf(parts[0]) == Some(version) && version >= 0
    ensures ParseEntry(directory, name, scheme)
      == Some(MigrationFileDescriptor(directory + "/" + name, version, DescriptionOf(parts, scheme.separator)))
  {
  }

  lemma ExampleAdmits()
    ensures Admits("v001-create_table.cql", NamingScheme(Some("v"), "-", Some(".cql")))
  {
    var name := "v001-create_table.cql";
    assert HasPrefix(name, "v");
    assert name[|name| - 4..] == ".cql";
  }

  lemma ExampleStripped()
    ensures StripPrefix("v001-create_table.cql", Some("v")) == "001-create_table.cql"
  {
    var name := "v001-create_table.cql";
    assert HasPrefix(name, "v");
    StripPrefixOfPrefixed(name, "v");
    assert name[1..] == "001-create_table.cql";
  }
}
