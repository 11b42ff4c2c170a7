/**
 * The string primitives of the .NET base library that the crawler and the
 * command line rely on: Char.IsWhiteSpace, String.Trim, single-character
 * String.Replace, ordinal case-insensitive comparison, String.Split and
 * String.Join, together with the crawler's NormalizeText built from them.
 */
module Text {

  /** Char.IsWhiteSpace: the characters of the Unicode White_Space property. */
  predicate IsWhiteSpace(c: char) {
    || c == ' '
    || ('\t' <= c <= '\r')
    || c == '\U{0085}' || c == '\U{00A0}' || c == '\U{1680}'
    || ('\U{2000}' <= c <= '\U{200A}')
    || c == '\U{2028}' || c == '\U{2029}' || c == '\U{202F}' || c == '\U{205F}' || c == '\U{3000}'
  }

  /** String.IsNullOrWhiteSpace on a non-null string. */
  predicate IsBlank(s: string) {
    forall k :: 0 <= k < |s| ==> IsWhiteSpace(s[k])
  }

  /** A string that neither starts nor ends with white space. */
  predicate Trimmed(s: string) {
    s == [] || (!IsWhiteSpace(s[0]) && !IsWhiteSpace(s[|s| - 1]))
  }

  /** The first position at or after i that holds no white space, or |s|. */
  function SkipWhite(s: string, i: nat): (k: nat)
    requires i <= |s|
    ensures i <= k <= |s|
    ensures k < |s| ==> !IsWhiteSpace(s[k])
    ensures forall j :: i <= j < k ==> IsWhiteSpace(s[j])
    decreases |s| - i
  {
    if i == |s| || !IsWhiteSpace(s[i]) then i else SkipWhite(s, i + 1)
  }

  /** The end of s once the white space before position j is dropped, stopping at lo. */
  function SkipWhiteBack(s: string, lo: nat, j: nat): (k: nat)
    requires lo <= j <= |s|
    ensures lo <= k <= j
    ensures k > lo ==> !IsWhiteSpace(s[k - 1])
    ensures forall m :: k <= m < j ==> IsWhiteSpace(s[m])
    decreases j - lo
  {
    if j == lo || !IsWhiteSpace(s[j - 1]) then j else SkipWhiteBack(s, lo, j - 1)
  }

  /** r is s with a white prefix of length a and a white suffix removed. */
  predicate CutsWhiteEdges(s: string, r: string, a: nat) {
    && a + |r| <= |s|
    && s[a..a + |r|] == r
    && (forall i :: 0 <= i < a ==> IsWhiteSpace(s[i]))
    && (forall i :: a + |r| <= i < |s| ==> IsWhiteSpace(s[i]))
  }

  /**
   * String.Trim(): the stretch of s between its leading and its trailing
   * white space. The result is trimmed and is s with only white space cut
   * from either end, so it is empty exactly when s is blank and leaves an
   * already trimmed string alone.
   */
  function Trim(s: string): (r: string)
    ensures Trimmed(r)
    ensures exists a: nat :: CutsWhiteEdges(s, r, a)
    ensures Trimmed(s) ==> r == s
    ensures IsBlank(s) <==> r == []
  {
    var a := SkipWhite(s, 0);
    var b := SkipWhiteBack(s, a, |s|);
    assert Trimmed(s) && s != [] ==> a == 0 && b == |s|;
    assert CutsWhiteEdges(s, s[a..b], a);
    s[a..b]
  }

  /**
   * Trim is determined by its contract: a non-empty trimmed core with only
   * white space around it is what Trim returns.
   */
  lemma TrimCore(s: string, a: nat, b: nat)
    requires a < b <= |s| && Trimmed(s[a..b])
    requires forall i :: 0 <= i < a ==> IsWhiteSpace(s[i])
    requires forall i :: b <= i < |s| ==> IsWhiteSpace(s[i])
    ensures Trim(s) == s[a..b]
  {
    var r := Trim(s);
    var a': nat :| CutsWhiteEdges(s, r, a');
    assert s[a..b][0] == s[a] && s[a..b][b - a - 1] == s[b - 1];
    assert r != [];
    var e := a' + |r|;
    assert e <= |s| && s[a'..e] == r;
    assert s[a'..e][0] == s[a'] && s[a'..e][|r| - 1] == s[e - 1];
    assert a' == a;
    assert e == b;
  }

  /** Trimming adds no character: a string free of some characters stays free of them. */
  lemma TrimKeepsFreeOf(s: string, seps: set<char>)
    requires FreeOf(s, seps)
    ensures FreeOf(Trim(s), seps)
  {
    var a := SkipWhite(s, 0);
    var b := SkipWhiteBack(s, a, |s|);
    assert forall k :: 0 <= k < b - a ==> s[a..b][k] == s[a + k];
  }

  /** String.Replace(string, string) with one-character arguments. */
  function Replace(s: string, from: char, to: char): (r: string)
    ensures |r| == |s|
    ensures forall k :: 0 <= k < |s| ==> r[k] == if s[k] == from then to else s[k]
  {
    seq(|s|, k requires 0 <= k < |s| => if s[k] == from then to else s[k])
  }

  /** The characters NormalizeText turns into a space. */
  const NoiseChars: set<char> := {'_', '-', '\r', '\n', '\t', '\U{00A0}'}

  predicate IsNoise(c: char) {
    c in NoiseChars
  }

  /**
   * The chain of six Replace calls of NormalizeText. Its contract is the
   * single-pass reading: same length, every noise character becomes a
   * space and every other character is kept.
   */
  function ReplaceNoise(s: string): (r: string)
    ensures |r| == |s|
    ensures forall k :: 0 <= k < |s| ==> r[k] == if IsNoise(s[k]) then ' ' else s[k]
  {
    Replace(Replace(Replace(Replace(Replace(Replace(
      s, '_', ' '), '-', ' '), '\r', ' '), '\n', ' '), '\t', ' '), '\U{00A0}', ' ')
  }

  /**
   * WebCrawler.NormalizeText: decode entities (a collaborator), replace the
   * noise characters with spaces, trim. The result holds no noise character
   * and has no white space at either end.
   */
  function NormalizeText(deEntitize: string -> string, raw: string): (r: string)
    ensures FreeOf(r, NoiseChars)
    ensures Trimmed(r)
  {
    var spaced := ReplaceNoise(deEntitize(raw));
    assert FreeOf(spaced, NoiseChars);
    TrimKeepsFreeOf(spaced, NoiseChars);
    Trim(spaced)
  }

  /** Replace-then-trim applied to NormalizeText's own output changes nothing. */
  lemma NormalizeTextStable(deEntitize: string -> string, raw: string)
    ensures var r := NormalizeText(deEntitize, raw); Trim(ReplaceNoise(r)) == r
  {
    var r := NormalizeText(deEntitize, raw);
    assert ReplaceNoise(r) == r;
  }

  /** Upper-case mapping of one character (letters a-z only). */
  function ToUpperAscii(c: char): char {
    if 'a' <= c <= 'z' then (c as int - 32) as char else c
  }

  /** Lower-case mapping of one character (letters A-Z only). */
  function ToLowerAscii(c: char): char {
    if 'A' <= c <= 'Z' then (c as int + 32) as char else c
  }

  /** String.ToLowerInvariant, character by character. */
  function ToLowerInvariant(s: string): (r: string)
    ensures |r| == |s|
    ensures forall k :: 0 <= k < |s| ==> r[k] == ToLowerAscii(s[k])
    ensures forall k :: 0 <= k < |r| ==> !('A' <= r[k] <= 'Z')
  {
    seq(|s|, k requires 0 <= k < |s| => ToLowerAscii(s[k]))
  }

  /** String.Equals(a, b, StringComparison.OrdinalIgnoreCase). */
  predicate EqualsIgnoreCase(a: string, b: string) {
    |a| == |b| && forall k :: 0 <= k < |a| ==> ToUpperAscii(a[k]) == ToUpperAscii(b[k])
  }

  /** String.Contains(needle, StringComparison.OrdinalIgnoreCase), scanning from the left. */
  function ContainsIgnoreCase(haystack: string, needle: string): bool
    decreases |haystack|
  {
    if |needle| > |haystack| then false
    else if EqualsIgnoreCase(haystack[..|needle|], needle) then true
    else ContainsIgnoreCase(haystack[1..], needle)
  }

  /** The window of the haystack starting at i equals the needle up to case. */
  predicate MatchesAt(haystack: string, needle: string, i: int) {
    0 <= i <= |haystack| - |needle| && EqualsIgnoreCase(haystack[i..i + |needle|], needle)
  }

  /** Some window of the haystack equals the needle up to case. */
  ghost predicate OccursIgnoreCase(haystack: string, needle: string) {
    exists i :: MatchesAt(haystack, needle, i)
  }

  /** A window past the first character is the same window of the haystack without it. */
  lemma MatchesAtShift(haystack: string, needle: string, i: int)
    requires haystack != [] && i >= 1
    ensures MatchesAt(haystack, needle, i) <==> MatchesAt(haystack[1..], needle, i - 1)
  {
    if 0 <= i - 1 <= |haystack[1..]| - |needle| {
      assert haystack[1..][i - 1..i - 1 + |needle|] == haystack[i..i + |needle|];
    }
  }

  /** The scan finds the needle exactly when some window matches it. */
  lemma {:induction false} ContainsIgnoreCaseIff(haystack: string, needle: string)
    ensures ContainsIgnoreCase(haystack, needle) <==> OccursIgnoreCase(haystack, needle)
    decreases |haystack|
  {
    if |needle| > |haystack| {
    } else if EqualsIgnoreCase(haystack[..|needle|], needle) {
      assert haystack[0..0 + |needle|] == haystack[..|needle|];
      assert MatchesAt(haystack, needle, 0);
    } else {
      var tail := haystack[1..];
      ContainsIgnoreCaseIff(tail, needle);
      if OccursIgnoreCase(haystack, needle) {
        var i :| MatchesAt(haystack, needle, i);
        assert i != 0;
        MatchesAtShift(haystack, needle, i);
      }
      if OccursIgnoreCase(tail, needle) {
        var i :| MatchesAt(tail, needle, i);
        MatchesAtShift(haystack, needle, i + 1);
      }
    }
  }

  /** Every character in the separator set becomes the given character. */
  function ReplaceAll(s: string, seps: set<char>, to: char): (r: string)
    ensures |r| == |s|
    ensures forall k :: 0 <= k < |s| ==> r[k] == if s[k] in seps then to else s[k]
  {
    seq(|s|, k requires 0 <= k < |s| => if s[k] in seps then to else s[k])
  }

  /** No character of s is a separator. */
  predicate FreeOf(s: string, seps: set<char>) {
    forall k :: 0 <= k < |s| ==> s[k] !in seps
  }

  /** String.Split(char[]) without options: cut at every separator, keeping empty pieces. */
  function SplitOn(s: string, seps: set<char>): (parts: seq<string>)
    ensures |parts| >= 1
    ensures forall i :: 0 <= i < |parts| ==> FreeOf(parts[i], seps)
  {
    if s == [] then [""]
    else
      var rest := SplitOn(s[1..], seps);
      if s[0] in seps then [""] + rest
      else
        assert FreeOf([s[0]] + rest[0], seps) by {
          assert forall k :: 1 <= k < |[s[0]] + rest[0]| ==> ([s[0]] + rest[0])[k] == rest[0][k - 1];
        }
        [[s[0]] + rest[0]] + rest[1..]
  }

  /** String.Join(sep, parts). */
  function Join(sep: string, parts: seq<string>): string {
    if parts == [] then ""
    else if |parts| == 1 then parts[0]
    else parts[0] + sep + Join(sep, parts[1..])
  }

  lemma JoinConsFirst(sep: string, c: char, p: string, rest: seq<string>)
    ensures Join(sep, [[c] + p] + rest) == [c] + Join(sep, [p] + rest)
  {
    if rest != [] {
      assert ([[c] + p] + rest)[1..] == rest;
      assert ([p] + rest)[1..] == rest;
    }
  }

  lemma ReplaceAllCons(s: string, seps: set<char>, to: char)
    requires s != []
    ensures ReplaceAll(s, seps, to) == [if s[0] in seps then to else s[0]] + ReplaceAll(s[1..], seps, to)
  {
    var r := ReplaceAll(s, seps, to);
    var t := [if s[0] in seps then to else s[0]] + ReplaceAll(s[1..], seps, to);
    assert |r| == |t|;
    forall k | 0 <= k < |r| ensures r[k] == t[k] {
      if k > 0 {
        assert s[1..][k - 1] == s[k];
      }
    }
  }

  /** Splitting at separators and joining with one character replaces every separator by it. */
  lemma {:induction false} JoinSplitIsReplaceAll(s: string, seps: set<char>, to: char)
    ensures Join([to], SplitOn(s, seps)) == ReplaceAll(s, seps, to)
  {
    if s != [] {
      var rest := SplitOn(s[1..], seps);
      JoinSplitIsReplaceAll(s[1..], seps, to);
      ReplaceAllCons(s, seps, to);
      if s[0] in seps {
        assert SplitOn(s, seps) == [""] + rest;
        assert ([""] + rest)[1..] == rest;
        assert Join([to], [""] + rest) == "" + [to] + Join([to], rest);
      } else {
        assert SplitOn(s, seps) == [[s[0]] + rest[0]] + rest[1..];
        JoinConsFirst([to], s[0], rest[0], rest[1..]);
        assert [rest[0]] + rest[1..] == rest;
      }
    }
  }

  lemma {:induction false} SplitOnFreePrefix(p: string, s: string, seps: set<char>)
    requires FreeOf(p, seps)
    ensures var parts := SplitOn(s, seps);
      SplitOn(p + s, seps) == [p + parts[0]] + parts[1..]
  {
    if p != [] {
      assert (p + s)[1..] == p[1..] + s;
      assert (p + s)[0] == p[0];
      SplitOnFreePrefix(p[1..], s, seps);
      assert [p[0]] + (p[1..] + SplitOn(s, seps)[0]) == p + SplitOn(s, seps)[0];
    } else {
      var parts := SplitOn(s, seps);
      assert p + s == s;
      assert p + parts[0] == parts[0];
      assert [parts[0]] + parts[1..] == parts;
    }
  }

  /** Joining separator-free pieces with a separator and splitting again gives the pieces back. */
  lemma {:induction false} SplitJoinRoundTrip(parts: seq<string>, sep: char)
    requires |parts| >= 1
    requires forall i :: 0 <= i < |parts| ==> FreeOf(parts[i], {sep})
    ensures SplitOn(Join([sep], parts), {sep}) == parts
  {
    if |parts| == 1 {
      SplitOnFreePrefix(parts[0], "", {sep});
      assert parts[0] + "" == parts[0];
    } else {
      var tail := Join([sep], parts[1..]);
      SplitJoinRoundTrip(parts[1..], sep);
      assert SplitOn([sep] + tail, {sep}) == [""] + parts[1..] by {
        assert ([sep] + tail)[1..] == tail;
      }
      SplitOnFreePrefix(parts[0], [sep] + tail, {sep});
      assert parts[0] + ([sep] + tail) == parts[0] + [sep] + tail;
      assert ([""] + parts[1..])[0] == "";
      assert ([""] + parts[1..])[1..] == parts[1..];
      assert parts[0] + "" == parts[0];
      assert [parts[0]] + parts[1..] == parts;
    }
  }

  /**
   * String.Split(sep, RemoveEmptyEntries | TrimEntries): split, trim every
   * piece, drop the pieces that are empty after trimming.
   */
  function TrimNonEmpty(pieces: seq<string>): (r: seq<string>)
    ensures forall i :: 0 <= i < |r| ==> r[i] != "" && Trimmed(r[i])
    ensures |r| <= |pieces|
  {
    if pieces == [] then []
    else
      var t := Trim(pieces[0]);
      if t == "" then TrimNonEmpty(pieces[1..]) else [t] + TrimNonEmpty(pieces[1..])
  }

  function SplitTrimmed(s: string, sep: char): (r: seq<string>)
    ensures forall i :: 0 <= i < |r| ==> r[i] != "" && Trimmed(r[i]) && FreeOf(r[i], {sep})
  {
    var pieces := SplitOn(s, {sep});
    TrimNonEmptyFree(pieces, {sep});
    TrimNonEmpty(pieces)
  }

  lemma {:induction false} TrimNonEmptyFree(pieces: seq<string>, seps: set<char>)
    requires forall i :: 0 <= i < |pieces| ==> FreeOf(pieces[i], seps)
    ensures forall i :: 0 <= i < |TrimNonEmpty(pieces)| ==> FreeOf(TrimNonEmpty(pieces)[i], seps)
  {
    if pieces != [] {
      TrimNonEmptyFree(pieces[1..], seps);
      var t := Trim(pieces[0]);
      var rest := TrimNonEmpty(pieces[1..]);
      TrimKeepsFreeOf(pieces[0], seps);
      if t != "" {
        assert forall i :: 1 <= i < |[t] + rest| ==> ([t] + rest)[i] == rest[i - 1];
      }
    }
  }

  lemma {:induction false} TrimNonEmptyKeeps(pieces: seq<string>)
    requires forall i :: 0 <= i < |pieces| ==> pieces[i] != "" && Trimmed(pieces[i])
    ensures TrimNonEmpty(pieces) == pieces
  {
    if pieces != [] {
      TrimNonEmptyKeeps(pieces[1..]);
      assert [pieces[0]] + pieces[1..] == pieces;
    }
  }

  /** The entries are exactly the trims of the pieces that are not blank. */
  lemma {:induction false} TrimNonEmptyEntries(pieces: seq<string>)
    ensures forall x :: x in TrimNonEmpty(pieces) <==>
      exists i :: 0 <= i < |pieces| && !IsBlank(pieces[i]) && Trim(pieces[i]) == x
  {
    if pieces != [] {
      var t := Trim(pieces[0]);
      var tail := pieces[1..];
      var rest := TrimNonEmpty(tail);
      TrimNonEmptyEntries(tail);
      assert TrimNonEmpty(pieces) == if t == "" then rest else [t] + rest;
      forall x
        ensures x in TrimNonEmpty(pieces) <==>
          exists i :: 0 <= i < |pieces| && !IsBlank(pieces[i]) && Trim(pieces[i]) == x
      {
        if x in rest {
          var i :| 0 <= i < |tail| && !IsBlank(tail[i]) && Trim(tail[i]) == x;
          assert pieces[i + 1] == tail[i];
        }
        if exists i :: 0 <= i < |pieces| && !IsBlank(pieces[i]) && Trim(pieces[i]) == x {
          var i :| 0 <= i < |pieces| && !IsBlank(pieces[i]) && Trim(pieces[i]) == x;
          if i > 0 {
            assert tail[i - 1] == pieces[i];
          }
        }
      }
    }
  }

  /** Trimming two runs of pieces in a row keeps each run's entries, in order. */
  lemma {:induction false} TrimNonEmptyConcat(a: seq<string>, b: seq<string>)
    ensures TrimNonEmpty(a + b) == TrimNonEmpty(a) + TrimNonEmpty(b)
    decreases |a|
  {
    if a == [] {
      assert a + b == b;
    } else {
      assert (a + b)[0] == a[0];
      assert (a + b)[1..] == a[1..] + b;
      TrimNonEmptyConcat(a[1..], b);
    }
  }

  /** A single piece is dropped when blank and kept trimmed otherwise. */
  lemma TrimNonEmptySingle(p: string)
    ensures TrimNonEmpty([p]) == if IsBlank(p) then [] else [Trim(p)]
  {
    assert [p][1..] == [];
  }

  /**
   * Splitting pieces joined by the separator and trimming them gives the
   * trims of the non-blank pieces; every string is such a join of its
   * own pieces (JoinSplitIsReplaceAll).
   */
  lemma SplitTrimmedOfJoin(pieces: seq<string>, sep: char)
    requires |pieces| >= 1
    requires forall i :: 0 <= i < |pieces| ==> FreeOf(pieces[i], {sep})
    ensures SplitTrimmed(Join([sep], pieces), sep) == TrimNonEmpty(pieces)
  {
    SplitJoinRoundTrip(pieces, sep);
  }

  /** The entries of a comma list are the trims of its non-blank pieces. */
  lemma SplitTrimmedEntries(s: string, sep: char, pieces: seq<string>)
    requires pieces == SplitOn(s, {sep})
    ensures forall x :: x in SplitTrimmed(s, sep) <==>
      exists i :: 0 <= i < |pieces| && !IsBlank(pieces[i]) && Trim(pieces[i]) == x
  {
    assert SplitTrimmed(s, sep) == TrimNonEmpty(pieces);
    TrimNonEmptyEntries(pieces);
  }

  /** A space after the comma is trimmed away, and an empty piece is dropped. */
  lemma SplitTrimmedExample()
    ensures SplitTrimmed("pricing, plans,", ',') == ["pricing", "plans"]
  {
    var pieces := ["pricing", " plans", ""];
    assert Join([','], pieces) == "pricing, plans,";
    SplitTrimmedOfJoin(pieces, ',');
    TrimNonEmptyExample();
  }

  /** The leading space of the example's second piece is trimmed away. */
  lemma TrimSpaceExample()
    ensures !IsBlank(" plans") && Trim(" plans") == "plans"
  {
    var b := " plans";
    assert !IsWhiteSpace(b[1]);
    TrimCore(b, 1, |b|);
    assert Trim(b) == b[1..];
    assert b[1..] == "plans";
  }

  /** The pieces of the example above, trimmed one by one. */
  lemma TrimNonEmptyExample()
    ensures TrimNonEmpty(["pricing", " plans", ""]) == ["pricing", "plans"]
  {
    var a, b, c := "pricing", " plans", "";
    assert TrimNonEmpty([a]) == [a] by {
      TrimNonEmptySingle(a);
      assert Trimmed(a);
    }
    assert TrimNonEmpty([b]) == ["plans"] by {
      TrimNonEmptySingle(b);
      TrimSpaceExample();
      assert TrimNonEmpty([b]) == [Trim(b)];
    }
    assert TrimNonEmpty([c]) == [] by {
      TrimNonEmptySingle(c);
    }
    assert TrimNonEmpty([a, b]) == [a, "plans"] by {
      assert [a, b] == [a] + [b];
      TrimNonEmptyConcat([a], [b]);
    }
    assert [a, b, c] == [a, b] + [c];
    TrimNonEmptyConcat([a, b], [c]);
  }

  /**
   * Round trip of the comma-list reading: non-empty, trimmed, comma-free
   * entries joined with the separator are split back into the same list.
   */
  lemma SplitTrimmedJoin(items: seq<string>, sep: char)
    requires forall i :: 0 <= i < |items| ==> items[i] != "" && Trimmed(items[i]) && FreeOf(items[i], {sep})
    ensures SplitTrimmed(Join([sep], items), sep) == items
  {
    if items == [] {
      assert SplitOn("", {sep}) == [""];
      assert Trim("") == "";
    } else {
      SplitJoinRoundTrip(items, sep);
      TrimNonEmptyKeeps(items);
    }
  }
}
