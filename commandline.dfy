/**
 * Program.Main up to the crawl: the help condition, the argument
 * dictionary, the SyncConfig with its defaults, and the file name a page
 * is written under.
 */
module CommandLine {
  import opened Wrappers
  import opened Text
  import opened Seqs
  import opened Config

  /** Fewer than two arguments, or "/?" in second place, prints the help text and stops. */
  predicate WantsHelp(args: seq<string>) {
    |args| < 2 || args[1] == "/?"
  }

  /** Only arguments that start with "--" are read. */
  predicate IsOption(a: string) {
    "--" <= a
  }

  /**
   * a.Split(sep, 2): the text before the first separator and, when there is
   * a separator, the text after it.
   */
  function SplitAtFirst(a: string, sep: char): (r: (string, Option<string>))
    ensures FreeOf(r.0, {sep})
    ensures r.1.None? ==> r.0 == a
    ensures r.1.Some? ==> a == r.0 + [sep] + r.1.value
  {
    if a == [] then ("", None)
    else if a[0] == sep then ("", Some(a[1..]))
    else
      var rest := SplitAtFirst(a[1..], sep);
      assert FreeOf([a[0]] + rest.0, {sep}) by {
        assert forall k :: 1 <= k < |[a[0]] + rest.0| ==> ([a[0]] + rest.0)[k] == rest.0[k - 1];
      }
      ([a[0]] + rest.0, rest.1)
  }

  /** The dictionary entry of one option: the lower-cased key, and the value or "" when there is no '='. */
  function ArgPair(a: string): (string, string) {
    var parts := SplitAtFirst(a, '=');
    (ToLowerInvariant(parts.0), if parts.1.Some? then parts.1.value else "")
  }

  /** The pair read from an option, stated by the position of its first '='. */
  lemma ArgPairOf(a: string)
    ensures forall i :: 0 <= i < |a| && a[i] == '=' && FreeOf(a[..i], {'='}) ==>
      ArgPair(a) == (ToLowerInvariant(a[..i]), a[i + 1..])
    ensures FreeOf(a, {'='}) ==> ArgPair(a) == (ToLowerInvariant(a), "")
  {
    var parts := SplitAtFirst(a, '=');
    assert parts.1.Some? ==> a[|parts.0|] == '=';
    assert forall k :: 0 <= k < |parts.0| ==> a[k] == parts.0[k] && a[k] != '=';
    forall i | 0 <= i < |a| && a[i] == '=' && FreeOf(a[..i], {'='})
      ensures ArgPair(a) == (ToLowerInvariant(a[..i]), a[i + 1..])
    {
      assert forall k :: 0 <= k < i ==> a[k] == a[..i][k];
      assert parts.1.Some?;
      assert |parts.0| == i;
      assert a[..i] == parts.0;
      assert a[i + 1..] == parts.1.value;
    }
  }

  /** args.Where(a => a.StartsWith("--")).Select(a => a.Split('=', 2)) with the key lower-cased. */
  function ArgPairs(args: seq<string>): (r: seq<(string, string)>)
    ensures |r| <= |args|
    ensures forall p :: p in r <==> exists a :: a in args && IsOption(a) && ArgPair(a) == p
  {
    if args == [] then []
    else if IsOption(args[0]) then [ArgPair(args[0])] + ArgPairs(args[1..])
    else ArgPairs(args[1..])
  }

  /** Each option contributes its own pair, in argument order. */
  lemma {:induction false} ArgPairsConcat(a: seq<string>, b: seq<string>)
    ensures ArgPairs(a + b) == ArgPairs(a) + ArgPairs(b)
    decreases |a|
  {
    if a == [] {
      assert a + b == b;
    } else {
      assert (a + b)[0] == a[0];
      assert (a + b)[1..] == a[1..] + b;
      ArgPairsConcat(a[1..], b);
    }
  }

  /** One argument gives one pair when it is an option and none otherwise. */
  lemma ArgPairsSingle(a: string)
    ensures ArgPairs([a]) == if IsOption(a) then [ArgPair(a)] else []
  {
    assert [a][1..] == [];
  }

  /** No key occurs twice. */
  predicate KeysDistinct(pairs: seq<(string, string)>) {
    forall i, j :: 0 <= i < j < |pairs| ==> pairs[i].0 != pairs[j].0
  }

  /** The value of the last pair with this key. */
  function ValueFor(pairs: seq<(string, string)>, key: string): (r: Option<string>)
    ensures r.Some? <==> exists i :: 0 <= i < |pairs| && pairs[i].0 == key
    ensures r.Some? ==> exists i :: 0 <= i < |pairs| && pairs[i] == (key, r.value)
  {
    if pairs == [] then None
    else
      var init := pairs[..|pairs| - 1];
      assert forall i :: 0 <= i < |init| ==> init[i] == pairs[i];
      if pairs[|pairs| - 1].0 == key then Some(pairs[|pairs| - 1].1) else ValueFor(init, key)
  }

  /** The value found is that of the last pair with this key: no later pair carries the key. */
  lemma {:induction false} ValueForLast(pairs: seq<(string, string)>, key: string)
    ensures ValueFor(pairs, key).Some? ==>
      exists i :: 0 <= i < |pairs| && pairs[i] == (key, ValueFor(pairs, key).value) &&
        forall j :: i < j < |pairs| ==> pairs[j].0 != key
  {
    if pairs != [] {
      var n := |pairs| - 1;
      var init := pairs[..n];
      if pairs[n].0 == key {
        assert pairs[n] == (key, ValueFor(pairs, key).value);
      } else if ValueFor(init, key).Some? {
        ValueForLast(init, key);
        assert ValueFor(pairs, key) == ValueFor(init, key);
        var i :| 0 <= i < |init| && init[i] == (key, ValueFor(init, key).value) &&
          forall j :: i < j < |init| ==> init[j].0 != key;
        assert pairs[i] == init[i];
        forall j | i < j < |pairs| ensures pairs[j].0 != key {
          if j < n {
            assert pairs[j] == init[j];
          }
        }
      }
    }
  }

  /** The errors Main raises before any crawl exists. */
  datatype CliError = DuplicateKey(key: string) | MissingOutputPath | MissingStartUrl

  /** The keys of a non-empty list are distinct when those before the last are and the last key is new. */
  lemma KeysDistinctSnoc(pairs: seq<(string, string)>)
    requires pairs != []
    ensures KeysDistinct(pairs) <==>
      KeysDistinct(pairs[..|pairs| - 1]) && ValueFor(pairs[..|pairs| - 1], pairs[|pairs| - 1].0).None?
  {
    var n := |pairs| - 1;
    var init := pairs[..n];
    assert forall i :: 0 <= i < n ==> init[i] == pairs[i];
    if KeysDistinct(pairs) {
      assert KeysDistinct(init) by {
        forall i, j | 0 <= i < j < n ensures init[i].0 != init[j].0 {
          assert pairs[i].0 != pairs[j].0;
        }
      }
      assert forall i :: 0 <= i < n ==> pairs[i].0 != pairs[n].0;
    }
    if KeysDistinct(init) && ValueFor(init, pairs[n].0).None? {
      forall i, j | 0 <= i < j < |pairs| ensures pairs[i].0 != pairs[j].0 {
        if j < n {
          assert init[i].0 != init[j].0;
        }
      }
    }
  }

  /**
   * ToDictionary: adds the pairs in order and throws on the first key seen
   * a second time. It succeeds exactly when the keys are distinct, and then
   * maps every key to its value.
   */
  function ToDictionary(pairs: seq<(string, string)>): (r: Result<map<string, string>, CliError>)
    ensures r.Ok? <==> KeysDistinct(pairs)
    ensures r.Ok? ==> forall k :: k in r.value <==> ValueFor(pairs, k).Some?
    ensures r.Ok? ==> forall k :: k in r.value ==> r.value[k] == ValueFor(pairs, k).value
    ensures r.Err? ==> r.error.DuplicateKey?
    ensures r.Err? ==> exists j ::
      && 0 <= j < |pairs|
      && pairs[j].0 == r.error.key
      && KeysDistinct(pairs[..j])
      && ValueFor(pairs[..j], r.error.key).Some?
  {
    if pairs == [] then Ok(map[])
    else
      var n := |pairs| - 1;
      var init := pairs[..n];
      KeysDistinctSnoc(pairs);
      match ToDictionary(init)
      case Err(e) =>
        var j :| 0 <= j < |init| && init[j].0 == e.key && KeysDistinct(init[..j]) && ValueFor(init[..j], e.key).Some?;
        assert |init[..j]| == |pairs[..j]| && forall i :: 0 <= i < j ==> init[..j][i] == pairs[..j][i];
        assert init[..j] == pairs[..j];
        assert pairs[j] == init[j];
        Err(e)
      case Ok(m) =>
        if pairs[n].0 in m then
          assert pairs[..n] == init;
          Err(DuplicateKey(pairs[n].0))
        else
          Ok(m[pairs[n].0 := pairs[n].1])
  }

  /** The white space int.TryParse skips at either end. */
  predicate IsNumberWhite(c: char) {
    c == ' ' || '\t' <= c <= '\r'
  }

  function DropNumberWhite(s: string): (r: string)
    ensures |r| <= |s|
    ensures r == [] || (!IsNumberWhite(r[0]) && !IsNumberWhite(r[|r| - 1]))
    ensures s == [] || (!IsNumberWhite(s[0]) && !IsNumberWhite(s[|s| - 1])) ==> r == s
    decreases |s|
  {
    if s != [] && IsNumberWhite(s[0]) then DropNumberWhite(s[1..])
    else if s != [] && IsNumberWhite(s[|s| - 1]) then DropNumberWhite(s[..|s| - 1])
    else s
  }

  predicate IsDigit(c: char) {
    '0' <= c <= '9'
  }

  predicate AllDigits(s: string) {
    forall k :: 0 <= k < |s| ==> IsDigit(s[k])
  }

  /** The number a string of decimal digits denotes. */
  function DigitsValue(s: string): nat
    requires AllDigits(s)
  {
    if s == [] then 0 else 10 * DigitsValue(s[..|s| - 1]) + (s[|s| - 1] as int - '0' as int)
  }

  const IntMin: int := -2147483648
  const IntMax: int := 2147483647

  /**
   * int.TryParse(s, out v) with NumberStyles.Integer: surrounding white
   * space, an optional sign, at least one decimal digit, and a value that
   * fits in 32 bits; otherwise None.
   */
  function ParseInt(s: string): (r: Option<int>)
    ensures r.Some? ==> IntMin <= r.value <= IntMax
  {
    var t := DropNumberWhite(s);
    var negative := |t| > 0 && t[0] == '-';
    var digits := if |t| > 0 && (t[0] == '-' || t[0] == '+') then t[1..] else t;
    if digits == [] || !AllDigits(digits) then None
    else
      var v: int := if negative then -(DigitsValue(digits) as int) else DigitsValue(digits);
      if IntMin <= v <= IntMax then Some(v) else None
  }

  /** Dropping the white space at the ends keeps every other character and adds none. */
  lemma {:induction false} DropKeepsChars(s: string)
    ensures forall i :: 0 <= i < |DropNumberWhite(s)| ==> DropNumberWhite(s)[i] in s
    ensures forall i :: 0 <= i < |s| ==> IsNumberWhite(s[i]) || s[i] in DropNumberWhite(s)
    decreases |s|
  {
    var r := DropNumberWhite(s);
    if s != [] && IsNumberWhite(s[0]) {
      var tail := s[1..];
      DropKeepsChars(tail);
      assert r == DropNumberWhite(tail);
      forall i | 0 <= i < |r| ensures r[i] in s {
        var k :| 0 <= k < |tail| && tail[k] == r[i];
        assert s[k + 1] == r[i];
      }
      forall i | 0 <= i < |s| ensures IsNumberWhite(s[i]) || s[i] in r {
        if i > 0 {
          assert tail[i - 1] == s[i];
        }
      }
    } else if s != [] && IsNumberWhite(s[|s| - 1]) {
      var init := s[..|s| - 1];
      DropKeepsChars(init);
      assert r == DropNumberWhite(init);
      forall i | 0 <= i < |r| ensures r[i] in s {
        var k :| 0 <= k < |init| && init[k] == r[i];
        assert s[k] == r[i];
      }
      forall i | 0 <= i < |s| ensures IsNumberWhite(s[i]) || s[i] in r {
        if i < |s| - 1 {
          assert init[i] == s[i];
        }
      }
    }
  }

  /**
   * int.TryParse fails on anything but white space, signs and digits, and
   * on a string without a digit: "12a" and "" are rejected, which leaves a
   * setting at its default.
   */
  lemma ParseIntCharacters(s: string)
    ensures ParseInt(s).Some? ==> exists i :: 0 <= i < |s| && IsDigit(s[i])
    ensures ParseInt(s).Some? ==> forall i :: 0 <= i < |s| ==> IsDigit(s[i]) || IsNumberWhite(s[i]) || s[i] == '+' || s[i] == '-'
  {
    var t := DropNumberWhite(s);
    DropKeepsChars(s);
    assert forall i :: 0 <= i < |t| ==> t[i] in s;
    if ParseInt(s).Some? {
      var digits := if |t| > 0 && (t[0] == '-' || t[0] == '+') then t[1..] else t;
      assert forall i :: 0 <= i < |t| ==> IsDigit(t[i]) || t[i] == '+' || t[i] == '-' by {
        forall i | 0 <= i < |t| ensures IsDigit(t[i]) || t[i] == '+' || t[i] == '-' {
          if digits != t && i > 0 {
            assert t[i] == digits[i - 1];
          }
        }
      }
      var j := |t| - |digits|;
      assert 0 <= j < |t| && IsDigit(t[j]);
      assert t[j] in s;
      var w :| 0 <= w < |s| && s[w] == t[j];
      forall i | 0 <= i < |s| ensures IsDigit(s[i]) || IsNumberWhite(s[i]) || s[i] == '+' || s[i] == '-' {
        if !IsNumberWhite(s[i]) {
          var k :| 0 <= k < |t| && t[k] == s[i];
        }
      }
    }
  }

  /** The decimal digits of n, without leading zeros. */
  function NatToDecimal(n: nat): (r: string)
    ensures r != [] && AllDigits(r)
  {
    var d := ['0' + (n % 10) as char];
    if n < 10 then d else NatToDecimal(n / 10) + d
  }

  /** The decimal text of n: int.ToString() in the invariant culture. */
  function IntToDecimal(n: int): string {
    if n < 0 then "-" + NatToDecimal(-n) else NatToDecimal(n)
  }

  lemma {:induction false} DigitsOfNat(n: nat)
    ensures DigitsValue(NatToDecimal(n)) == n
  {
    var d := ['0' + (n % 10) as char];
    if n >= 10 {
      DigitsOfNat(n / 10);
      var s := NatToDecimal(n / 10) + d;
      assert s[..|s| - 1] == NatToDecimal(n / 10);
    }
  }

  /** Every 32-bit integer written in decimal reads back as itself. */
  lemma ParseIntRoundTrip(n: int)
    requires IntMin <= n <= IntMax
    ensures ParseInt(IntToDecimal(n)) == Some(n)
  {
    var s := IntToDecimal(n);
    var m: nat := if n < 0 then -n else n;
    DigitsOfNat(m);
    var digits := NatToDecimal(m);
    assert s[|s| - 1] == digits[|digits| - 1];
    assert DropNumberWhite(s) == s;
    if n < 0 {
      assert s[1..] == digits;
    }
  }

  /** A setting read as an integer: the parsed value, or the default when absent or unreadable. */
  function IntSetting(m: map<string, string>, key: string, default: int): int {
    if key in m && ParseInt(m[key]).Some? then ParseInt(m[key]).value else default
  }

  /** A setting read as a comma-separated list, empty when absent. */
  function ListSetting(m: map<string, string>, key: string): seq<string> {
    if key in m then SplitTrimmed(m[key], ',') else []
  }

  /** The object initialiser of lines 38-52. */
  function BuildConfig(m: map<string, string>, startingUrl: string): SyncConfig {
    SyncConfig(
      startingUrl,
      IntSetting(m, "--maxpages", 100),
      IntSetting(m, "--maxdepth", 3),
      if "--filter" in m then m["--filter"] else ".*",
      ListSetting(m, "--skiphrefs"),
      ListSetting(m, "--textrequired"),
      if "--urlprefix" in m then Some(m["--urlprefix"]) else None,
      "--usejs" in m && EqualsIgnoreCase(m["--usejs"], "true"))
  }

  /** What Main decides before rendering starts. */
  datatype CliOutcome = ShowHelp | Rejected(error: CliError) | Configured(outputPath: string, config: SyncConfig)

  /** The value given for a key on the command line. */
  function Arg(args: seq<string>, key: string): Option<string> {
    ValueFor(ArgPairs(args), key)
  }

  /**
   * Lines 12-52: help, then the dictionary (a repeated key throws), then
   * --outputpath and --starturl, checked in that order.
   */
  function ParseCommandLine(args: seq<string>): (r: CliOutcome)
    ensures r.ShowHelp? <==> WantsHelp(args)
    ensures !WantsHelp(args) && !KeysDistinct(ArgPairs(args)) ==> r.Rejected? && r.error.DuplicateKey?
    ensures !WantsHelp(args) && KeysDistinct(ArgPairs(args)) && Arg(args, "--outputpath").None? ==>
      r == Rejected(MissingOutputPath)
    ensures !WantsHelp(args) && KeysDistinct(ArgPairs(args)) && Arg(args, "--outputpath").Some? && Arg(args, "--starturl").None? ==>
      r == Rejected(MissingStartUrl)
    ensures !WantsHelp(args) && KeysDistinct(ArgPairs(args)) && Arg(args, "--outputpath").Some? && Arg(args, "--starturl").Some? ==>
      r.Configured?
    ensures r.Configured? ==>
      && KeysDistinct(ArgPairs(args))
      && Arg(args, "--outputpath") == Some(r.outputPath)
      && Arg(args, "--starturl") == Some(r.config.startingUrl)
  {
    if WantsHelp(args) then ShowHelp
    else match ToDictionary(ArgPairs(args))
      case Err(e) => Rejected(e)
      case Ok(m) =>
        if "--outputpath" !in m then Rejected(MissingOutputPath)
        else if "--starturl" !in m then Rejected(MissingStartUrl)
        else Configured(m["--outputpath"], BuildConfig(m, m["--starturl"]))
  }

  /** An option at position i gives the pair at the index counting the options before it. */
  lemma {:induction false} ArgPairAt(args: seq<string>, i: nat)
    requires i < |args| && IsOption(args[i])
    ensures |ArgPairs(args[..i])| < |ArgPairs(args)| && ArgPairs(args)[|ArgPairs(args[..i])|] == ArgPair(args[i])
    decreases i
  {
    if i == 0 {
      assert args[..0] == [];
    } else {
      var tail := args[1..];
      ArgPairAt(tail, i - 1);
      assert tail[i - 1] == args[i];
      var before := args[..i];
      assert before[0] == args[0] && before[1..] == tail[..i - 1];
    }
  }

  /**
   * Two options with the same key, even with equal values, make
   * ToDictionary throw: the line is rejected for a repeated key.
   */
  lemma RepeatedKeyRejected(args: seq<string>, i: nat, j: nat)
    requires i < j < |args|
    requires IsOption(args[i]) && IsOption(args[j]) && ArgPair(args[i]).0 == ArgPair(args[j]).0
    ensures !KeysDistinct(ArgPairs(args))
    ensures !WantsHelp(args) ==> ParseCommandLine(args).Rejected? && ParseCommandLine(args).error.DuplicateKey?
  {
    var pairs := ArgPairs(args);
    var k, l := |ArgPairs(args[..i])|, |ArgPairs(args[..j])|;
    assert k < l < |pairs| && pairs[k].0 == pairs[l].0 by {
      ArgPairAt(args, i);
      ArgPairAt(args, j);
      ArgPairAt(args[..j], i);
      assert args[..j][..i] == args[..i];
    }
  }

  /** Reads the dictionary of an accepted command line back as Arg. */
  lemma ConfiguredLookup(args: seq<string>)
    requires ParseCommandLine(args).Configured?
    ensures var m := ToDictionary(ArgPairs(args)).value;
      ParseCommandLine(args).config == BuildConfig(m, Arg(args, "--starturl").value)
      && forall k :: (k in m <==> Arg(args, k).Some?) && (k in m ==> m[k] == Arg(args, k).value)
  {
  }

  /** MaxPages and MaxDepth: 100 and 3 when the key is absent or its value is not an integer. */
  lemma IntSettingDefaults(args: seq<string>)
    requires ParseCommandLine(args).Configured?
    ensures var c := ParseCommandLine(args).config;
      && (Arg(args, "--maxpages").None? || ParseInt(Arg(args, "--maxpages").value).None? ==> c.maxPages == 100)
      && (Arg(args, "--maxdepth").None? || ParseInt(Arg(args, "--maxdepth").value).None? ==> c.maxDepth == 3)
  {
    KeyLookup(args, "--maxpages");
    KeyLookup(args, "--maxdepth");
  }

  /** A 32-bit integer given in decimal is taken as it is. */
  lemma IntSettingGiven(args: seq<string>, pages: int, depth: int)
    requires ParseCommandLine(args).Configured?
    requires IntMin <= pages <= IntMax && IntMin <= depth <= IntMax
    ensures Arg(args, "--maxpages") == Some(IntToDecimal(pages)) ==> ParseCommandLine(args).config.maxPages == pages
    ensures Arg(args, "--maxdepth") == Some(IntToDecimal(depth)) ==> ParseCommandLine(args).config.maxDepth == depth
  {
    KeyLookup(args, "--maxpages");
    KeyLookup(args, "--maxdepth");
    ParseIntRoundTrip(pages);
    ParseIntRoundTrip(depth);
  }

  /** One key of an accepted command line, read back through its dictionary. */
  lemma KeyLookup(args: seq<string>, key: string)
    requires ParseCommandLine(args).Configured?
    ensures var m := ToDictionary(ArgPairs(args)).value;
      && ParseCommandLine(args).config == BuildConfig(m, Arg(args, "--starturl").value)
      && (key in m <==> Arg(args, key).Some?)
      && (key in m ==> m[key] == Arg(args, key).value)
  {
    ConfiguredLookup(args);
  }

  /**
   * The filter defaults to ".*", the prefix is None exactly when
   * --urlprefix is absent, and JavaScript rendering is on exactly for
   * --usejs=true in any case.
   */
  lemma FlagSettings(args: seq<string>)
    requires ParseCommandLine(args).Configured?
    ensures var c := ParseCommandLine(args).config;
      && c.urlFilterRegex == (if Arg(args, "--filter").Some? then Arg(args, "--filter").value else ".*")
      && c.allowedUrlPrefix == Arg(args, "--urlprefix")
      && (c.useJavaScriptRendering <==> Arg(args, "--usejs").Some? && EqualsIgnoreCase(Arg(args, "--usejs").value, "true"))
  {
    KeyLookup(args, "--filter");
    KeyLookup(args, "--urlprefix");
    KeyLookup(args, "--usejs");
  }

  /**
   * The two lists are empty when their key is absent, and read back entry
   * by entry when given as a comma-joined list of trimmed, non-empty terms.
   */
  lemma ListSettings(args: seq<string>, required: seq<string>, skips: seq<string>)
    requires ParseCommandLine(args).Configured?
    requires forall i :: 0 <= i < |required| ==> required[i] != "" && Trimmed(required[i]) && FreeOf(required[i], {','})
    requires forall i :: 0 <= i < |skips| ==> skips[i] != "" && Trimmed(skips[i]) && FreeOf(skips[i], {','})
    ensures var c := ParseCommandLine(args).config;
      && (Arg(args, "--textrequired").None? ==> c.allowPagesWith == [])
      && (Arg(args, "--skiphrefs").None? ==> c.skipHrefSubstrings == [])
      && (Arg(args, "--textrequired") == Some(Join([','], required)) ==> c.allowPagesWith == required)
      && (Arg(args, "--skiphrefs") == Some(Join([','], skips)) ==> c.skipHrefSubstrings == skips)
  {
    KeyLookup(args, "--textrequired");
    KeyLookup(args, "--skiphrefs");
    SplitTrimmedJoin(required, ',');
    SplitTrimmedJoin(skips, ',');
  }

  /** A given list value is read with Split(',', RemoveEmptyEntries | TrimEntries). */
  lemma ListSettingsGiven(args: seq<string>)
    requires ParseCommandLine(args).Configured?
    ensures var c := ParseCommandLine(args).config;
      && (Arg(args, "--textrequired").Some? ==> c.allowPagesWith == SplitTrimmed(Arg(args, "--textrequired").value, ','))
      && (Arg(args, "--skiphrefs").Some? ==> c.skipHrefSubstrings == SplitTrimmed(Arg(args, "--skiphrefs").value, ','))
  {
    KeyLookup(args, "--textrequired");
    KeyLookup(args, "--skiphrefs");
  }

  /** The characters Path.GetInvalidFileNameChars() returns on Linux and macOS. */
  const UnixInvalidFileNameChars: set<char> := {'\0', '/'}

  /**
   * Lines 77-78: string.Join("_", title.Split(invalid)) + ".txt". The
   * result replaces every invalid character of the title by '_', keeps the
   * rest, and ends in ".txt".
   */
  function FileNameFor(title: string, invalid: set<char>): (r: string)
    ensures |r| == |title| + 4 && r[|title|..] == ".txt"
    ensures forall k :: 0 <= k < |title| ==> r[k] == if title[k] in invalid then '_' else title[k]
    ensures '_' !in invalid ==> forall k :: 0 <= k < |r| ==> r[k] !in invalid || k >= |title|
  {
    JoinSplitIsReplaceAll(title, invalid, '_');
    Join("_", SplitOn(title, invalid)) + ".txt"
  }

  /**
   * On Linux no title can name a file outside the output directory or cut
   * the name short: the name holds neither '/' nor NUL.
   */
  lemma UnixFileNameSafe(title: string)
    ensures var r := FileNameFor(title, UnixInvalidFileNameChars);
      forall k :: 0 <= k < |r| ==> r[k] != '/' && r[k] != '\0'
  {
    var r := FileNameFor(title, UnixInvalidFileNameChars);
    forall k | 0 <= k < |r| ensures r[k] != '/' && r[k] != '\0' {
      if k >= |title| {
        assert r[k] == r[|title|..][k - |title|];
      }
    }
  }
}
