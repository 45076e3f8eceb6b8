/**
 * The Foundation string operations the migration core relies on, over
 * `string` = `seq<char>`: substring search, `components(separatedBy:)`,
 * `joined(separator:)`, `replacingOccurrences(of:with:)`, trimming, line
 * splitting and lower-casing.
 */
module Text {
  import opened Wrappers

  predicate HasPrefix(s: string, p: string) {
    |p| <= |s| && s[..|p|] == p
  }

  predicate HasSuffix(s: string, p: string) {
    |p| <= |s| && s[|s| - |p|..] == p
  }

  /** `p` occurs in `s` starting at index `i`. */
  predicate MatchesAt(s: string, p: string, i: int) {
    0 <= i && i + |p| <= |s| && s[i..i + |p|] == p
  }

  /** The leftmost occurrence of `p` in `s` at or after index `from`. */
  function IndexFrom(s: string, p: string, from: nat): (r: Option<nat>)
    ensures r.Some? ==> from <= r.value && MatchesAt(s, p, r.value)
    ensures r.Some? ==> forall j :: from <= j < r.value ==> !MatchesAt(s, p, j)
    ensures r.None? ==> forall j :: from <= j ==> !MatchesAt(s, p, j)
    decreases |s| - from
  {
    if from + |p| > |s| then None
    else if s[from..from + |p|] == p then Some(from)
    else IndexFrom(s, p, from + 1)
  }

  /**
   * `range(of:)`: the leftmost occurrence of `p` in `s`. Unlike Foundation,
   * which finds nothing for an empty pattern, this finds it at 0, so
   * `Contains(s, [])` holds; every caller here tests for the empty pattern
   * first (`Components`, `ReplaceAll` and the prefix guard of the file names).
   */
  function IndexOf(s: string, p: string): (r: Option<nat>)
    ensures r.Some? ==> MatchesAt(s, p, r.value) && forall j :: 0 <= j < r.value ==> !MatchesAt(s, p, j)
    ensures r.None? <==> forall j :: !MatchesAt(s, p, j)
  {
    IndexFrom(s, p, 0)
  }

  lemma MatchesChar(s: string, c: char, j: int)
    ensures MatchesAt(s, [c], j) <==> 0 <= j < |s| && s[j] == c
  {
    if 0 <= j < |s| && s[j] == c {
      assert s[j..j + 1] == [c];
    }
    if MatchesAt(s, [c], j) {
      assert s[j..j + 1][0] == s[j];
    }
  }

  /** A one-character pattern is found at its first occurrence. */
  lemma IndexOfChar(s: string, c: char, i: nat)
    requires i < |s| && s[i] == c && c !in s[..i]
    ensures IndexOf(s, [c]) == Some(i)
  {
    MatchesChar(s, c, i);
    var r := IndexOf(s, [c]);
    if r.Some? {
      MatchesChar(s, c, r.value);
    }
  }

  lemma IndexOfCharAbsent(s: string, c: char)
    requires c !in s
    ensures IndexOf(s, [c]) == None
  {
    var r := IndexOf(s, [c]);
    if r.Some? {
      MatchesChar(s, c, r.value);
    }
  }

  /** `contains(_:)` with a string argument. */
  predicate Contains(s: string, p: string) {
    IndexOf(s, p).Some?
  }

  /** `components(separatedBy:)` with a string separator; an empty separator splits nothing. */
  function Components(s: string, sep: string): (r: seq<string>)
    ensures |r| >= 1
    decreases |s|
  {
    if sep == [] then [s]
    else match IndexOf(s, sep)
      case None => [s]
      case Some(i) => [s[..i]] + Components(s[i + |sep|..], sep)
  }

  /** `joined(separator:)`. */
  function Join(parts: seq<string>, sep: string): string {
    if |parts| == 0 then ""
    else if |parts| == 1 then parts[0]
    else parts[0] + sep + Join(parts[1..], sep)
  }

  /** `replacingOccurrences(of:with:)`: every occurrence, scanned left to right. */
  function ReplaceAll(s: string, p: string, r: string): string
    decreases |s|
  {
    if p == [] then s
    else match IndexOf(s, p)
      case None => s
      case Some(i) => s[..i] + r + ReplaceAll(s[i + |p|..], p, r)
  }

  /** Splitting and re-joining with the same separator gives back the string. */
  lemma {:induction false} JoinComponents(s: string, sep: string)
    ensures Join(Components(s, sep), sep) == s
    decreases |s|
  {
    if sep != [] && IndexOf(s, sep).Some? {
      var i := IndexOf(s, sep).value;
      var rest := s[i + |sep|..];
      JoinComponents(rest, sep);
      JoinCons(s[..i], sep, Components(rest, sep));
      SplitAtMatch(s, sep, i);
    }
  }

  lemma JoinCons(a: string, sep: string, tail: seq<string>)
    requires |tail| >= 1
    ensures Join([a] + tail, sep) == a + sep + Join(tail, sep)
  {
    assert ([a] + tail)[1..] == tail;
  }

  lemma SplitAtMatch(s: string, p: string, i: nat)
    requires MatchesAt(s, p, i)
    ensures s == s[..i] + p + s[i + |p|..]
  {
    assert s == s[..i] + s[i..i + |p|] + s[i + |p|..];
  }

  /** No piece produced by `Components` contains the separator. */
  lemma {:induction false} ComponentsAvoidSeparator(s: string, sep: string, k: nat)
    requires sep != []
    requires k < |Components(s, sep)|
    ensures !Contains(Components(s, sep)[k], sep)
    decreases |s|
  {
    match IndexOf(s, sep)
    case None =>
    case Some(i) =>
      if k == 0 {
        forall j | MatchesAt(s[..i], sep, j) ensures false {
          assert s[..i][j..j + |sep|] == s[j..j + |sep|];
          assert MatchesAt(s, sep, j);
        }
      } else {
        ComponentsAvoidSeparator(s[i + |sep|..], sep, k - 1);
      }
  }

  /** The first piece is the text before the first separator, or all of `s`. */
  lemma ComponentsHead(s: string, sep: string)
    ensures sep != [] && IndexOf(s, sep).Some? ==> Components(s, sep)[0] == s[..IndexOf(s, sep).value]
    ensures sep == [] || IndexOf(s, sep).None? ==> Components(s, sep) == [s]
    ensures HasPrefix(s, Components(s, sep)[0])
  {
  }

  /** There is more than one piece exactly when the (non-empty) separator occurs. */
  lemma ComponentsCount(s: string, sep: string)
    ensures |Components(s, sep)| > 1 <==> sep != [] && Contains(s, sep)
  {
  }

  /** Everything after the first separator, re-joined, is the text after the first occurrence. */
  lemma AfterFirstSeparator(s: string, sep: string)
    requires sep != [] && Contains(s, sep)
    ensures var i := IndexOf(s, sep).value;
      Join(Components(s, sep)[1..], sep) == s[i + |sep|..]
  {
    var i := IndexOf(s, sep).value;
    var rest := s[i + |sep|..];
    assert Components(s, sep)[1..] == Components(rest, sep) by {
      assert Components(s, sep) == [s[..i]] + Components(rest, sep);
    }
    JoinComponents(rest, sep);
  }

  /** Replacing every occurrence is splitting at the occurrences and joining with the replacement. */
  lemma {:induction false} ReplaceAllIsJoin(s: string, p: string, r: string)
    requires p != []
    ensures ReplaceAll(s, p, r) == Join(Components(s, p), r)
    decreases |s|
  {
    match IndexOf(s, p)
    case None =>
    case Some(i) =>
      ReplaceAllIsJoin(s[i + |p|..], p, r);
  }

  /**
   * `ReplaceAll` replaces every occurrence and changes nothing else: the
   * original is some pieces free of `p` joined by `p`, and the result is
   * the same pieces joined by `r`.
   */
  lemma ReplaceAllReplacesEveryOccurrence(s: string, p: string, r: string)
    requires p != []
    ensures var parts := Components(s, p);
      && s == Join(parts, p)
      && ReplaceAll(s, p, r) == Join(parts, r)
      && forall k :: 0 <= k < |parts| ==> !Contains(parts[k], p)
  {
    JoinComponents(s, p);
    ReplaceAllIsJoin(s, p, r);
    forall k | 0 <= k < |Components(s, p)| ensures !Contains(Components(s, p)[k], p) {
      ComponentsAvoidSeparator(s, p, k);
    }
  }

  /** A string without `p` is left unchanged. */
  lemma ReplaceAllAbsent(s: string, p: string, r: string)
    requires !Contains(s, p)
    ensures ReplaceAll(s, p, r) == s
  {
  }

  /** A one-character pattern occurs exactly when the character does. */
  lemma ContainsChar(s: string, c: char)
    ensures Contains(s, [c]) <==> c in s
  {
    if c in s {
      var j :| 0 <= j < |s| && s[j] == c;
      assert MatchesAt(s, [c], j);
    }
    if Contains(s, [c]) {
      var j := IndexOf(s, [c]).value;
      assert s[j..j + 1] == [c];
      assert s[j] == c;
    }
  }

  /** A character of a joined string comes from a piece or from the separator. */
  lemma {:induction false} JoinChars(parts: seq<string>, sep: string, c: char)
    requires c in Join(parts, sep)
    ensures c in sep || exists k :: 0 <= k < |parts| && c in parts[k]
  {
    if |parts| > 1 {
      var rest := Join(parts[1..], sep);
      assert Join(parts, sep) == parts[0] + sep + rest;
      if c !in parts[0] && c !in sep {
        JoinChars(parts[1..], sep, c);
        var k :| 0 <= k < |parts[1..]| && c in parts[1..][k];
        assert c in parts[k + 1];
      }
    } else if |parts| == 1 {
      assert c in parts[0];
    }
  }

  /** Every character of every piece appears in the joined string. */
  lemma {:induction false} JoinKeepsChars(parts: seq<string>, sep: string, k: nat, c: char)
    requires k < |parts| && c in parts[k]
    ensures c in Join(parts, sep)
  {
    if |parts| > 1 {
      assert Join(parts, sep) == parts[0] + sep + Join(parts[1..], sep);
      if k > 0 {
        JoinKeepsChars(parts[1..], sep, k - 1, c);
      }
    }
  }

  // ----- Trimming -----

  function TrimStart(s: string, drop: char -> bool): (r: string)
    ensures |r| <= |s| && r == s[|s| - |r|..]
  {
    if |s| > 0 && drop(s[0]) then TrimStart(s[1..], drop) else s
  }

  function TrimEnd(s: string, drop: char -> bool): (r: string)
    ensures |r| <= |s| && r == s[..|r|]
  {
    if |s| > 0 && drop(s[|s| - 1]) then TrimEnd(s[..|s| - 1], drop) else s
  }

  /** Trimming the start removes only dropped characters ... */
  lemma {:induction false} TrimStartDropsLeadingRun(s: string, drop: char -> bool)
    ensures forall k :: 0 <= k < |s| - |TrimStart(s, drop)| ==> drop(s[k])
    decreases |s|
  {
    if |s| > 0 && drop(s[0]) {
      var rest := s[1..];
      TrimStartDropsLeadingRun(rest, drop);
      assert TrimStart(s, drop) == TrimStart(rest, drop);
      var n := |rest| - |TrimStart(rest, drop)|;
      forall k | 0 <= k < n + 1
        ensures drop(s[k])
      {
        if k > 0 {
          assert s[k] == rest[k - 1];
        }
      }
    }
  }

  /** ... and stops at the first character that is not dropped. */
  lemma {:induction false} TrimStartStopsAtKept(s: string, drop: char -> bool)
    ensures TrimStart(s, drop) == [] || !drop(TrimStart(s, drop)[0])
    decreases |s|
  {
    if |s| > 0 && drop(s[0]) {
      TrimStartStopsAtKept(s[1..], drop);
    }
  }

  /** Trimming the end removes exactly the trailing run of dropped characters. */
  lemma {:induction false} TrimEndDropsTrailingRun(s: string, drop: char -> bool)
    ensures forall k :: |TrimEnd(s, drop)| <= k < |s| ==> drop(s[k])
    ensures TrimEnd(s, drop) == [] || !drop(TrimEnd(s, drop)[|TrimEnd(s, drop)| - 1])
    decreases |s|
  {
    if |s| > 0 && drop(s[|s| - 1]) {
      TrimEndDropsTrailingRun(s[..|s| - 1], drop);
      forall k | |TrimEnd(s, drop)| <= k < |s| - 1
        ensures drop(s[k])
      {
        assert s[k] == s[..|s| - 1][k];
      }
    }
  }

  /** `trimmingCharacters(in:)`: drop the characters of the set from both ends. */
  function Trim(s: string, drop: char -> bool): string {
    TrimEnd(TrimStart(s, drop), drop)
  }

  /** Trimming the end keeps every character up to the last one that is not dropped. */
  lemma {:induction false} TrimEndKeeps(s: string, drop: char -> bool, k: nat)
    requires k < |s| && !drop(s[k])
    ensures k < |TrimEnd(s, drop)|
    decreases |s|
  {
    if drop(s[|s| - 1]) {
      TrimEndKeeps(s[..|s| - 1], drop, k);
    }
  }

  /**
   * A string that starts with `p`, where neither `p`'s first nor its last
   * character is trimmed, still starts with `p` after trimming.
   */
  lemma TrimKeepsPrefix(s: string, p: string, drop: char -> bool)
    requires |p| > 0 && HasPrefix(s, p)
    requires !drop(p[0]) && !drop(p[|p| - 1])
    ensures HasPrefix(Trim(s, drop), p)
  {
    assert s[0] == p[0];
    assert TrimStart(s, drop) == s;
    assert s[|p| - 1] == p[|p| - 1];
    TrimEndKeeps(s, drop, |p| - 1);
    var t := TrimEnd(s, drop);
    assert t[..|p|] == s[..|p|];
  }

  // ----- Character classes -----

  /** `CharacterSet.whitespaces`: Unicode category Zs and the tab. */
  predicate IsSpace(c: char) {
    || c == '\t' || c == ' ' || c == '\U{A0}' || c == '\U{1680}'
    || ('\U{2000}' <= c <= '\U{200A}') || c == '\U{202F}' || c == '\U{205F}' || c == '\U{3000}'
  }

  /** `CharacterSet.newlines`. */
  predicate IsNewline(c: char) {
    ('\n' <= c <= '\r') || c == '\U{85}' || c == '\U{2028}' || c == '\U{2029}'
  }

  /** `CharacterSet.whitespacesAndNewlines`. */
  predicate IsSpaceOrNewline(c: char) {
    IsSpace(c) || IsNewline(c)
  }

  /** `components(separatedBy: .newlines)`: split at every newline character. */
  function Lines(s: string): (r: seq<string>)
    ensures |r| >= 1
  {
    if s == [] then [""]
    else if IsNewline(s[0]) then [""] + Lines(s[1..])
    else
      var rest := Lines(s[1..]);
      [[s[0]] + rest[0]] + rest[1..]
  }

  /** Text without a newline character is a single line. */
  lemma {:induction false} LinesWithoutNewline(s: string)
    requires forall k :: 0 <= k < |s| ==> !IsNewline(s[k])
    ensures Lines(s) == [s]
    decreases |s|
  {
    if s != [] {
      assert forall k :: 0 <= k < |s[1..]| ==> s[1..][k] == s[k + 1];
      LinesWithoutNewline(s[1..]);
      assert [s[0]] + s[1..] == s;
    }
  }

  /** A newline splits the text into the lines before it and the lines after it. */
  lemma {:induction false} LinesAtNewline(p: string, n: char, x: string)
    requires IsNewline(n)
    ensures Lines(p + [n] + x) == Lines(p) + Lines(x)
    decreases |p|
  {
    if p == [] {
      assert p + [n] + x == [n] + x;
      assert ([n] + x)[1..] == x;
    } else {
      assert (p + [n] + x)[1..] == p[1..] + [n] + x;
      LinesAtNewline(p[1..], n, x);
    }
  }

  /** The first line starts with any newline-free prefix of the text. */
  lemma {:induction false} FirstLineStartsWith(a: string, y: string)
    requires forall k :: 0 <= k < |a| ==> !IsNewline(a[k])
    ensures HasPrefix(Lines(a + y)[0], a)
    decreases |a|
  {
    if a != [] {
      assert (a + y)[1..] == a[1..] + y;
      FirstLineStartsWith(a[1..], y);
      var rest := Lines(a[1..] + y);
      assert Lines(a + y)[0] == [a[0]] + rest[0];
      assert a == [a[0]] + a[1..];
    }
  }

  /** `lowercased()`, for the ASCII letters. */
  function LowerChar(c: char): char {
    if 'A' <= c <= 'Z' then (c as int - 'A' as int + 'a' as int) as char else c
  }

  function Lower(s: string): (r: string)
    ensures |r| == |s| && forall k :: 0 <= k < |s| ==> r[k] == LowerChar(s[k])
  {
    seq(|s|, k requires 0 <= k < |s| => LowerChar(s[k]))
  }
}
