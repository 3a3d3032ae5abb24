/** Configuration: the fallback `.env` reader, which adds `KEY=value` lines
    to the process environment without overwriting what is already set, and
    the settings read from the environment with their defaults. */
module Config {
  import opened Common
  import Text

  // ---------------------------------------------------------------------
  // Lines

  /** The characters at which Python's `str.splitlines()` ends a line
      (`\r\n` counts as one break). */
  const LineBreaks: set<char> := {
    '\n', '\r', '\U{B}', '\U{C}', '\U{1C}', '\U{1D}', '\U{1E}', '\U{85}', '\U{2028}', '\U{2029}'
  }

  /** Index of the first line break, or `|s|` when there is none. */
  function FirstBreak(s: string): (i: nat)
    ensures i <= |s|
    ensures forall j :: 0 <= j < i ==> s[j] !in LineBreaks
    ensures i < |s| ==> s[i] in LineBreaks
  {
    if s == [] || s[0] in LineBreaks then 0 else 1 + FirstBreak(s[1..])
  }

  /** A line: text without any line break in it. */
  predicate NoBreaks(l: string) {
    forall j :: 0 <= j < |l| ==> l[j] !in LineBreaks
  }

  /** Python's `s.splitlines()`. */
  function SplitLines(s: string): (lines: seq<string>)
    ensures forall k :: 0 <= k < |lines| ==> NoBreaks(lines[k])
    ensures s == [] <==> lines == []
    decreases |s|
  {
    if s == [] then []
    else
      var i := FirstBreak(s);
      if i == |s| then [s]
      else
        var next := if s[i] == '\r' && i + 1 < |s| && s[i + 1] == '\n' then i + 2 else i + 1;
        [s[..i]] + SplitLines(s[next..])
  }

  /** Each line followed by a newline. */
  function Terminated(lines: seq<string>): string {
    if lines == [] then [] else lines[0] + "\n" + Terminated(lines[1..])
  }

  /** Writing lines one per row and splitting the text gives them back. */
  lemma {:induction false} SplitLinesRoundTrip(lines: seq<string>)
    requires forall k :: 0 <= k < |lines| ==> NoBreaks(lines[k])
    ensures SplitLines(Terminated(lines)) == lines
  {
    if lines != [] {
      assert NoBreaks(lines[0]);
      SplitFirstLine(lines[0], Terminated(lines[1..]));
      SplitLinesRoundTrip(lines[1..]);
    }
  }

  /** A line without breaks followed by `\n` splits off as the first line. */
  lemma SplitFirstLine(l: string, rest: string)
    requires NoBreaks(l)
    ensures SplitLines(l + "\n" + rest) == [l] + SplitLines(rest)
  {
    var s := l + "\n" + rest;
    assert forall j :: 0 <= j < |l| ==> s[j] == l[j];
    FirstBreakAt(s, |l|);
    assert s[..|l|] == l;
    assert s[|l| + 1..] == rest;
  }

  lemma FirstBreakAt(s: string, i: nat)
    requires i < |s| && s[i] in LineBreaks
    requires forall j :: 0 <= j < i ==> s[j] !in LineBreaks
    ensures FirstBreak(s) == i
  {
  }

  // ---------------------------------------------------------------------
  // One line of the file

  /** What one line of the file contributes: nothing, or a key and a value. */
  datatype Entry = Skip | Assign(key: string, value: string)

  /** A line is skipped when it is blank after stripping, a comment, or has
      no `=`; otherwise it is cut at its first `=`, the key is stripped, and
      the value is stripped, then rid of surrounding `'`, then of `"`. */
  function ParseLine(line: string): (e: Entry)
    ensures e.Skip? <==> var s := Text.Strip(line); s == [] || Text.StartsWith(s, "#") || '=' !in s
    ensures e.Assign? ==> '=' !in e.key
  {
    var s := Text.Strip(line);
    if s == [] || Text.StartsWith(s, "#") || '=' !in s then Skip
    else
      var i := Text.IndexOf(s, '=');
      assert s[..i] <= s;
      CutAt(s, i)
  }

  /** The entry of a line cut at its `=` at index `i`. */
  function CutAt(s: string, i: nat): (e: Entry)
    requires i < |s| && '=' !in s[..i]
    ensures e.Assign? && '=' !in e.key
  {
    Text.TrimIsInfix(s[..i], Text.Whitespace);
    Assign(Text.Strip(s[..i]), Unquote(Text.Strip(s[i + 1..])))
  }

  /** `v.strip("'").strip('"')`. */
  function Unquote(v: string): string {
    Text.StripChar(Text.StripChar(v, '\''), '"')
  }

  /** A line with no blank at either end, not a comment, cuts at its first
      `=`. */
  lemma ParseLineAt(line: string, i: nat)
    requires line != [] && line[0] !in Text.Whitespace && line[|line| - 1] !in Text.Whitespace && line[0] != '#'
    requires i < |line| && line[i] == '='
    requires forall j :: 0 <= j < i ==> line[j] != '='
    ensures ParseLine(line) == CutAt(line, i)
  {
    Text.TrimFixed(line, Text.Whitespace);
    NotComment(line);
    IndexOfAt(line, '=', i);
    ParseLineCuts(line);
  }

  /** A stripped, non-comment line with an `=` cuts at its first `=`. */
  lemma ParseLineCuts(line: string)
    requires Text.Strip(line) == line && line != [] && !Text.StartsWith(line, "#") && '=' in line
    ensures ParseLine(line) == CutAt(line, Text.IndexOf(line, '='))
  {
  }

  lemma NotComment(line: string)
    requires line != [] && line[0] != '#'
    ensures !Text.StartsWith(line, "#")
  {
    assert line[..1] != "#";
  }

  /** Keys that `strip()` leaves alone, with no `=` and no leading `#`. */
  predicate PlainKey(key: string) {
    key != [] && Text.Strip(key) == key && key[0] != '#' && '=' !in key
  }

  /** Values that `strip()` leaves alone and that carry no surrounding
      quotes. */
  predicate PlainValue(value: string) {
    Text.Strip(value) == value && Unquote(value) == value
  }

  /** The line `key=v` for a plain key and a `v` that `strip()` leaves alone
      reads as the key and `v` unquoted. */
  lemma ParseLineKeyValue(key: string, v: string)
    requires PlainKey(key) && Text.Strip(v) == v
    ensures ParseLine(key + "=" + v) == Assign(key, Unquote(v))
  {
    EndsNotBlank(key);
    EndsNotBlank(v);
    CutsAfterKey(key, v);
    CutAtKey(key, v);
  }

  lemma CutsAfterKey(key: string, v: string)
    requires key != [] && key[0] !in Text.Whitespace && key[0] != '#' && '=' !in key
    requires v == [] || v[|v| - 1] !in Text.Whitespace
    ensures ParseLine(key + "=" + v) == CutAt(key + "=" + v, |key|)
  {
    var line := key + "=" + v;
    assert line[0] == key[0] && line[|key|] == '=';
    assert line[|line| - 1] == if v == [] then '=' else v[|v| - 1];
    assert forall j :: 0 <= j < |key| ==> line[j] == key[j];
    ParseLineAt(line, |key|);
  }

  lemma CutAtKey(key: string, v: string)
    requires '=' !in key
    ensures CutAt(key + "=" + v, |key|) == Assign(Text.Strip(key), Unquote(Text.Strip(v)))
  {
    var line := key + "=" + v;
    assert line[..|key|] == key && line[|key| + 1..] == v;
  }

  lemma EndsNotBlank(s: string)
    requires Text.Strip(s) == s
    ensures s == [] || (s[0] !in Text.Whitespace && s[|s| - 1] !in Text.Whitespace)
  {
    assert Text.Trim(s, Text.Whitespace) == s;
  }

  /** A `KEY=value` line whose key and value are plain reads back as that key
      and value; the value may itself contain `=`. */
  lemma ParseLineRoundTrip(key: string, value: string)
    requires PlainKey(key) && PlainValue(value)
    ensures ParseLine(key + "=" + value) == Assign(key, value)
  {
    ParseLineKeyValue(key, value);
  }

  /** A value written in double quotes is read without them. */
  lemma ParseLineQuoted(key: string, value: string)
    requires PlainKey(key) && PlainValue(value) && value != []
    ensures ParseLine(key + "=" + ("\"" + value + "\"")) == Assign(key, value)
  {
    QuotedUnquotes(value);
    ParseLineKeyValue(key, "\"" + value + "\"");
  }

  /** Stripping a value in double quotes leaves it as it is, and unquoting
      it gives the value back. */
  lemma QuotedUnquotes(value: string)
    requires PlainValue(value) && value != []
    ensures Text.Strip("\"" + value + "\"") == "\"" + value + "\""
    ensures Unquote("\"" + value + "\"") == value
  {
    UnquoteFixed(value);
    assert value[0] != '"' && value[|value| - 1] != '"';
    QuotedStripped(value);
    QuotedKeepsSingle(value);
    DoubleQuotesStrip(value);
  }

  /** `strip()` leaves a value in double quotes alone. */
  lemma QuotedStripped(v: string)
    ensures Text.Strip("\"" + v + "\"") == "\"" + v + "\""
  {
    var quoted := "\"" + v + "\"";
    assert quoted[0] == '"' && quoted[|quoted| - 1] == '"';
    EndsFixed(quoted, '"', Text.Whitespace);
  }

  /** `strip("'")` leaves a value in double quotes alone. */
  lemma QuotedKeepsSingle(v: string)
    ensures Text.StripChar("\"" + v + "\"", '\'') == "\"" + v + "\""
  {
    var quoted := "\"" + v + "\"";
    assert quoted[0] == '"' && quoted[|quoted| - 1] == '"';
    EndsFixed(quoted, '"', {'\''});
  }

  /** A string that starts and ends with a character outside `cs` is left
      alone by trimming `cs`. */
  lemma EndsFixed(s: string, c: char, cs: set<char>)
    requires s != [] && s[0] == c && s[|s| - 1] == c && c !in cs
    ensures Text.Trim(s, cs) == s
  {
    Text.TrimFixed(s, cs);
  }

  /** `'"' + v + '"'` stripped of `"` is `v` when `v` neither starts nor ends
      with `"`. */
  lemma DoubleQuotesStrip(v: string)
    requires v != [] && v[0] != '"' && v[|v| - 1] != '"'
    ensures Text.StripChar("\"" + v + "\"", '"') == v
  {
    var quoted := "\"" + v + "\"";
    var right := v + "\"";
    assert quoted[1..] == right && right[..|v|] == v;
    OneLeadingDropped(quoted, {'"'});
    OneTrailingDropped(right, {'"'});
  }

  /** Trimming the left end removes a single leading character of `cs`. */
  lemma OneLeadingDropped(s: string, cs: set<char>)
    requires |s| >= 2 && s[0] in cs && s[1] !in cs
    ensures Text.TrimLeft(s, cs) == s[1..]
  {
  }

  /** Trimming the right end removes a single trailing character of `cs`. */
  lemma OneTrailingDropped(s: string, cs: set<char>)
    requires |s| >= 2 && s[|s| - 1] in cs && s[|s| - 2] !in cs
    ensures Text.TrimRight(s, cs) == s[..|s| - 1]
  {
  }

  /** A value that `Unquote` leaves alone has no quote to strip. */
  lemma UnquoteFixed(v: string)
    requires Unquote(v) == v
    ensures Text.StripChar(v, '\'') == v && Text.StripChar(v, '"') == v
  {
    var w := Text.StripChar(v, '\'');
    Text.TrimIsInfix(v, {'\''});
    assert |w| == |v|;
    assert w == v;
  }

  lemma IndexOfAt(s: string, c: char, i: nat)
    requires i < |s| && s[i] == c
    requires forall j :: 0 <= j < i ==> s[j] != c
    ensures c in s && Text.IndexOf(s, c) == i
  {
    if i > 0 {
      IndexOfAt(s[1..], c, i - 1);
    }
  }

  // ---------------------------------------------------------------------
  // The environment

  /** `os.environ.setdefault(key, value)` raises `ValueError` when it has to
      store a key that is empty or holds NUL, or a value that holds NUL. */
  predicate Storable(key: string, value: string) {
    key != [] && '\0' !in key && '\0' !in value
  }

  /** The process environment. */
  class Environ {
    var vars: map<string, string>

    constructor (initial: map<string, string>)
      ensures vars == initial
    {
      vars := initial;
    }

    /** `os.environ.setdefault(key, value)`: `ok` is false where Python raises. */
    method SetDefault(key: string, value: string) returns (ok: bool)
      modifies this
      ensures ok <==> key in old(vars) || Storable(key, value)
      ensures vars == if key !in old(vars) && ok then old(vars)[key := value] else old(vars)
    {
      if key in vars {
        return true;
      }
      if !Storable(key, value) {
        return false;
      }
      vars := vars[key := value];
      ok := true;
    }
  }

  /** Each line of the file parsed on its own. */
  function Entries(lines: seq<string>): (es: seq<Entry>)
    ensures |es| == |lines|
    ensures forall i :: 0 <= i < |lines| ==> es[i] == ParseLine(lines[i])
  {
    if lines == [] then [] else [ParseLine(lines[0])] + Entries(lines[1..])
  }

  /** The environment after the entries are applied in order with
      `setdefault`; `ok` is false when a `setdefault` raised, and the entries
      after that one are not applied. */
  function Apply(vars: map<string, string>, es: seq<Entry>): (map<string, string>, bool)
    decreases |es|
  {
    if es == [] then (vars, true)
    else
      match es[0]
      case Skip => Apply(vars, es[1..])
      case Assign(k, v) =>
        if k in vars then Apply(vars, es[1..])
        else if !Storable(k, v) then (vars, false)
        else Apply(vars[k := v], es[1..])
  }

  /** `_load_env_fallback`: nothing when the file is missing, otherwise its
      lines applied in order. */
  function LoadEnvFallbackSpec(vars: map<string, string>, file: Option<string>): (map<string, string>, bool) {
    match file
    case None => (vars, true)
    case Some(text) => Apply(vars, Entries(SplitLines(text)))
  }

  method LoadEnvFallback(env: Environ, file: Option<string>) returns (ok: bool)
    modifies env
    ensures (env.vars, ok) == LoadEnvFallbackSpec(old(env.vars), file)
  {
    if file.None? {
      return true;
    }
    var lines := SplitLines(file.value);
    var k := 0;
    while k < |lines|
      invariant 0 <= k <= |lines|
      invariant Apply(env.vars, Entries(lines[k..])) == Apply(old(env.vars), Entries(lines))
    {
      var e := ParseLine(lines[k]);
      assert lines[k..][1..] == lines[k + 1..];
      if e.Assign? {
        var stored := env.SetDefault(e.key, e.value);
        if !stored {
          return false;
        }
      }
      k := k + 1;
    }
    ok := true;
  }

  /** The value of the first entry that assigns `k`, if any. */
  function FirstValue(es: seq<Entry>, k: string): Option<string>
    decreases |es|
  {
    if es == [] then None
    else if es[0].Assign? && es[0].key == k then Some(es[0].value)
    else FirstValue(es[1..], k)
  }

  /** Reading the file never overwrites a variable that was set, and when it
      completes, a variable that was not set ends up with the value of the
      first line that assigns it, or stays unset. */
  lemma {:induction false} ApplyKeepsExisting(vars: map<string, string>, es: seq<Entry>)
    ensures var (r, ok) := Apply(vars, es);
            && (forall k :: k in vars ==> k in r && r[k] == vars[k])
            && (ok ==> forall k :: k !in vars ==>
                  (k in r <==> FirstValue(es, k).Some?) && (k in r ==> r[k] == FirstValue(es, k).value))
    decreases |es|
  {
    if es != [] {
      match es[0]
      case Skip =>
        ApplyKeepsExisting(vars, es[1..]);
      case Assign(key, value) =>
        if key in vars {
          ApplyKeepsExisting(vars, es[1..]);
        } else if Storable(key, value) {
          ApplyKeepsExisting(vars[key := value], es[1..]);
        }
    }
  }

  /** A missing file leaves the environment as it was. */
  lemma MissingFileChangesNothing(vars: map<string, string>)
    ensures LoadEnvFallbackSpec(vars, None) == (vars, true)
  {
  }

  // ---------------------------------------------------------------------
  // Settings

  datatype Settings = Settings(secretKey: string, dbHost: string, dbPort: int,
                               dbUser: string, dbPassword: string, dbName: string)

  /** `os.getenv(key, default)`. */
  function Getenv(env: map<string, string>, key: string, default: string): string {
    if key in env then env[key] else default
  }

  /** The `Config` class: each field from the environment or its default;
      `int()` of a `DB_PORT` that is not a number raises `ValueError`. */
  function LoadConfig(env: map<string, string>): (r: Result<Settings, string>)
    ensures r.Failure? <==> Text.ParseInt(Getenv(env, "DB_PORT", "3306")).None?
    ensures r.Success? ==>
      && r.value.secretKey == Getenv(env, "SECRET_KEY", "dev-secret-change-in-production")
      && r.value.dbHost == Getenv(env, "DB_HOST", "127.0.0.1")
      && Text.ParseInt(Getenv(env, "DB_PORT", "3306")) == Some(r.value.dbPort)
      && r.value.dbUser == Getenv(env, "DB_USER", "root")
      && r.value.dbPassword == Getenv(env, "DB_PASSWORD", "")
      && r.value.dbName == Getenv(env, "DB_NAME", "mycrm")
  {
    match Text.ParseInt(Getenv(env, "DB_PORT", "3306"))
    case None => Failure("ValueError")
    case Some(port) =>
      Success(Settings(Getenv(env, "SECRET_KEY", "dev-secret-change-in-production"),
                       Getenv(env, "DB_HOST", "127.0.0.1"), port,
                       Getenv(env, "DB_USER", "root"), Getenv(env, "DB_PASSWORD", ""),
                       Getenv(env, "DB_NAME", "mycrm")))
  }

  /** With nothing set, the settings are the defaults: port 3306, database
      `mycrm`. */
  lemma DefaultSettings()
    ensures LoadConfig(map[]) == Success(Settings("dev-secret-change-in-production", "127.0.0.1", 3306, "root", "", "mycrm"))
  {
    DefaultPortDigits();
    Text.ParseIntRoundTrip(3306);
  }

  lemma DefaultPortDigits()
    ensures Text.IntToString(3306) == "3306"
  {
    assert Text.DigitChar(3) == '3' && Text.DigitChar(0) == '0' && Text.DigitChar(6) == '6';
    assert Text.NatToString(3) == "3";
    assert Text.NatToString(33) == Text.NatToString(3) + "3";
    assert Text.NatToString(330) == Text.NatToString(33) + "0";
    assert Text.NatToString(3306) == Text.NatToString(330) + "6";
  }

  /** A port written as a number is read back as that number. */
  lemma PortRoundTrip(env: map<string, string>, port: int)
    ensures LoadConfig(env["DB_PORT" := Text.IntToString(port)]).Success?
    ensures LoadConfig(env["DB_PORT" := Text.IntToString(port)]).value.dbPort == port
  {
    Text.ParseIntRoundTrip(port);
  }
}
