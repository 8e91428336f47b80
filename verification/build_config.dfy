/** The build script's settings (build-config.js): the `.env.local` reader and
    the precedence between that file and the process environment. */
module BuildConfig {
  import opened Results
  import opened Text

  /** One line of the env file: `None` for a blank line, a comment, a line without
      `=` or a line with nothing before its first `=`; otherwise the trimmed key
      before the first `=` and the trimmed rest, later `=` signs included. */
  function ParseLine(line: string): (r: Option<(string, string)>)
    ensures var t := Trim(line);
      t == "" || t[0] == '#' || '=' !in t ==> r.None?
    ensures var t := Trim(line);
      t != "" && t[0] != '#' && '=' in t ==>
        var i := IndexOf(t, '=');
        (r.None? <==> i == 0)
        && (r.Some? ==> r.value == (Trim(t[..i]), Trim(t[i + 1..])))
  {
    var t := Trim(line);
    if t == "" || t[0] == '#' then None
    else
      var pieces := Split(t, '=');
      var key := pieces[0];
      if key == "" || |pieces| == 1 then None
      else
        SplitHead(t, '=');
        SplitRest(t, '=');
        Some((Trim(key), Trim(Join(pieces[1..], "="))))
  }

  /** Rejoining every piece after the first gives the text after the first
      separator. */
  lemma SplitRest(s: string, sep: char)
    requires sep in s
    ensures Join(Split(s, sep)[1..], [sep]) == s[IndexOf(s, sep) + 1..]
  {
  }

  /** A kept line always has a non-empty key: the line is trimmed, so the text
      before its first `=` starts with a non-space character. */
  lemma KeysAreNonEmpty(line: string)
    ensures ParseLine(line).Some? ==> ParseLine(line).value.0 != ""
  {
    var t := Trim(line);
    if ParseLine(line).Some? {
      var i := IndexOf(t, '=');
      var key := t[..i];
      assert key[0] == t[0] && !IsSpace(key[0]);
    }
  }

  /** A kept line's key and value, or `None` for a skipped line. */
  type Entry = Option<(string, string)>

  /** The variables set by a run of entries, later entries overwriting earlier
      ones. */
  function Assign(es: seq<Entry>): (m: map<string, string>)
    decreases |es|
  {
    if |es| == 0 then map[]
    else
      var m := Assign(es[..|es| - 1]);
      match es[|es| - 1]
      case None => m
      case Some((k, v)) => m[k := v]
  }

  /** Some entry sets the variable `k`. */
  predicate Sets(es: seq<Entry>, k: string) {
    exists i :: 0 <= i < |es| && es[i].Some? && es[i].value.0 == k
  }

  /** The variables defined are exactly the keys of the entries. */
  lemma {:induction false} DefinedIffSet(es: seq<Entry>, k: string)
    ensures k in Assign(es) <==> Sets(es, k)
    decreases |es|
  {
    if |es| > 0 {
      var init := es[..|es| - 1];
      DefinedIffSet(init, k);
      if Sets(init, k) {
        var i :| 0 <= i < |init| && init[i].Some? && init[i].value.0 == k;
        assert es[i] == init[i];
      }
      if Sets(es, k) && !(es[|es| - 1].Some? && es[|es| - 1].value.0 == k) {
        var i :| 0 <= i < |es| && es[i].Some? && es[i].value.0 == k;
        assert init[i] == es[i];
      }
    }
  }

  /** Entry `i` sets `k` to `v` and no later entry sets `k`. */
  predicate LastSetting(es: seq<Entry>, k: string, v: string, i: int) {
    && 0 <= i < |es| && es[i] == Some((k, v))
    && forall j :: i < j < |es| ==> !(es[j].Some? && es[j].value.0 == k)
  }

  /** Every variable holds the value of the last entry that sets it. */
  lemma {:induction false} LastEntryWins(es: seq<Entry>, k: string)
    requires k in Assign(es)
    ensures exists i :: LastSetting(es, k, Assign(es)[k], i)
    decreases |es|
  {
    var init := es[..|es| - 1];
    var last := es[|es| - 1];
    if last.Some? && last.value.0 == k {
      assert LastSetting(es, k, Assign(es)[k], |es| - 1);
    } else {
      assert Assign(es)[k] == Assign(init)[k];
      LastEntryWins(init, k);
      var i :| LastSetting(init, k, Assign(init)[k], i);
      assert LastSetting(es, k, Assign(es)[k], i) by {
        assert es[i] == init[i];
        forall j | i < j < |es| ensures !(es[j].Some? && es[j].value.0 == k) {
          if j < |es| - 1 {
            assert es[j] == init[j];
          }
        }
      }
    }
  }

  /** Each line's entry. */
  function Entries(lines: seq<string>): (es: seq<Entry>)
    ensures |es| == |lines| && forall i :: 0 <= i < |lines| ==> es[i] == ParseLine(lines[i])
  {
    seq(|lines|, i requires 0 <= i < |lines| => ParseLine(lines[i]))
  }

  /** loadEnvFile's `forEach` over the lines of the file. */
  function ParseLines(lines: seq<string>): map<string, string> {
    Assign(Entries(lines))
  }

  /** A skipped line (blank, comment, no `=`, empty key) leaves the variables as
      they were; a kept line sets its key and nothing else. */
  lemma NextLine(lines: seq<string>, line: string)
    ensures ParseLine(line).None? ==> ParseLines(lines + [line]) == ParseLines(lines)
    ensures ParseLine(line).Some? ==>
      ParseLines(lines + [line]) == ParseLines(lines)[ParseLine(line).value.0 := ParseLine(line).value.1]
  {
    assert Entries(lines + [line]) == Entries(lines) + [ParseLine(line)];
    AssignSnoc(Entries(lines), ParseLine(line));
  }

  lemma AssignSnoc(es: seq<Entry>, e: Entry)
    ensures e.None? ==> Assign(es + [e]) == Assign(es)
    ensures e.Some? ==> Assign(es + [e]) == Assign(es)[e.value.0 := e.value.1]
  {
    assert (es + [e])[..|es|] == es;
  }

  /** A trimmed `KEY=value` line reads back as its key and value: whatever
      follows the first `=`, other `=` signs included, is the value. */
  lemma LineRoundTrip(k: string, v: string)
    requires k != "" && k[0] != '#' && '=' !in k && Trim(k) == k
    requires Trim(v) == v
    ensures ParseLine(k + "=" + v) == Some((k, v))
  {
    var t := k + "=" + v;
    LineShape(k, v);
    assert Trim(t)[..IndexOf(Trim(t), '=')] == k;
  }

  lemma LineShape(k: string, v: string)
    requires k != "" && '=' !in k && !IsSpace(k[0])
    requires |v| == 0 || !IsSpace(v[|v| - 1])
    ensures var t := k + "=" + v;
      Trim(t) == t && '=' in t && IndexOf(t, '=') == |k| && t[..|k|] == k && t[|k| + 1..] == v
  {
    var t := k + "=" + v;
    assert t[0] == k[0];
    assert |v| > 0 ==> t[|t| - 1] == v[|v| - 1];
    TrimUnchanged(t);
    assert t[..|k|] == k;
    FirstAt(t, '=', |k|);
  }

  /** The first occurrence is where `c` occurs with no earlier `c`. */
  lemma FirstAt(s: string, c: char, n: nat)
    requires n < |s| && s[n] == c && c !in s[..n]
    ensures IndexOf(s, c) == n
  {
  }

  /** loadEnvFile: no file gives no variables; otherwise a variable is defined
      exactly when some line of the file sets it, and holds the value of the last
      line that does. */
  function LoadEnvFile(file: Option<string>): (m: map<string, string>)
    ensures file.None? ==> m == map[]
    ensures file.Some? ==> forall k :: k in m <==> Sets(Entries(Split(file.value, '\n')), k)
    ensures file.Some? ==>
      forall k :: k in m ==> exists i :: LastSetting(Entries(Split(file.value, '\n')), k, m[k], i)
  {
    match file
    case None => map[]
    case Some(content) =>
      var lines := Split(content, '\n');
      AssignFacts(Entries(lines));
      ParseLines(lines)
  }

  /** DefinedIffSet and LastEntryWins for every variable at once. */
  lemma AssignFacts(es: seq<Entry>)
    ensures forall k :: k in Assign(es) <==> Sets(es, k)
    ensures forall k :: k in Assign(es) ==> exists i :: LastSetting(es, k, Assign(es)[k], i)
  {
    forall k ensures k in Assign(es) <==> Sets(es, k) {
      DefinedIffSet(es, k);
    }
    forall k | k in Assign(es) ensures exists i :: LastSetting(es, k, Assign(es)[k], i) {
      LastEntryWins(es, k);
    }
  }

  /** Only one entry can be the last to set a variable. */
  lemma LastSettingUnique(es: seq<Entry>, k: string, v: string, i: int, w: string, j: int)
    requires LastSetting(es, k, v, i) && LastSetting(es, k, w, j)
    ensures i == j && v == w
  {
  }

  /** `envVars.KEY || process.env.KEY || ''`: a non-empty file value, else a
      non-empty process value, else the empty string. */
  function ConfigValue(envFile: map<string, string>, processEnv: map<string, string>, key: string): (v: string)
    ensures key in envFile && envFile[key] != "" ==> v == envFile[key]
    ensures (key !in envFile || envFile[key] == "") && key in processEnv ==> v == processEnv[key]
    ensures v != "" ==> (key in envFile && v == envFile[key]) || (key in processEnv && v == processEnv[key])
  {
    if key in envFile && envFile[key] != "" then envFile[key]
    else if key in processEnv && processEnv[key] != "" then processEnv[key]
    else ""
  }

  /** The two settings generateConfig writes, and whether both are set. */
  datatype Settings = Settings(url: string, anonKey: string)

  function GenerateConfig(file: Option<string>, processEnv: map<string, string>): (s: Settings)
    ensures file.None? ==> s.url == ConfigValue(map[], processEnv, "SUPABASE_URL")
    ensures file.None? ==> s.anonKey == ConfigValue(map[], processEnv, "SUPABASE_ANON_KEY")
    ensures var env := LoadEnvFile(file);
      "SUPABASE_URL" in env && env["SUPABASE_URL"] != "" ==> s.url == env["SUPABASE_URL"]
    ensures var env := LoadEnvFile(file);
      "SUPABASE_ANON_KEY" in env && env["SUPABASE_ANON_KEY"] != "" ==> s.anonKey == env["SUPABASE_ANON_KEY"]
    ensures var env := LoadEnvFile(file);
      !("SUPABASE_URL" in env && env["SUPABASE_URL"] != "") ==>
        s.url == if "SUPABASE_URL" in processEnv then processEnv["SUPABASE_URL"] else ""
    ensures var env := LoadEnvFile(file);
      !("SUPABASE_ANON_KEY" in env && env["SUPABASE_ANON_KEY"] != "") ==>
        s.anonKey == if "SUPABASE_ANON_KEY" in processEnv then processEnv["SUPABASE_ANON_KEY"] else ""
  {
    var env := LoadEnvFile(file);
    Settings(ConfigValue(env, processEnv, "SUPABASE_URL"), ConfigValue(env, processEnv, "SUPABASE_ANON_KEY"))
  }

  /** A file whose last line for a variable gives it a non-empty value decides
      that variable, whatever the process environment holds. */
  lemma LastFileLineWins(content: string, processEnv: map<string, string>, key: string, v: string, i: int)
    requires LastSetting(Entries(Split(content, '\n')), key, v, i) && v != ""
    ensures ConfigValue(LoadEnvFile(Some(content)), processEnv, key) == v
    ensures key == "SUPABASE_URL" ==> GenerateConfig(Some(content), processEnv).url == v
    ensures key == "SUPABASE_ANON_KEY" ==> GenerateConfig(Some(content), processEnv).anonKey == v
  {
    var es := Entries(Split(content, '\n'));
    var env := LoadEnvFile(Some(content));
    assert Sets(es, key);
    var j :| LastSetting(es, key, env[key], j);
    LastSettingUnique(es, key, v, i, env[key], j);
  }

  /** The settings are complete exactly when both values are non-empty; the
      build warns when they are not. */
  predicate Complete(s: Settings) {
    s.url != "" && s.anonKey != ""
  }

  /** The build warns exactly when one of the two variables has a non-empty value
      neither in the file nor in the process environment. */
  lemma CompleteIffBothSet(file: Option<string>, processEnv: map<string, string>)
    ensures var env := LoadEnvFile(file);
      Complete(GenerateConfig(file, processEnv)) <==>
        && (("SUPABASE_URL" in env && env["SUPABASE_URL"] != "") ||
            ("SUPABASE_URL" in processEnv && processEnv["SUPABASE_URL"] != ""))
        && (("SUPABASE_ANON_KEY" in env && env["SUPABASE_ANON_KEY"] != "") ||
            ("SUPABASE_ANON_KEY" in processEnv && processEnv["SUPABASE_ANON_KEY"] != ""))
  {
  }
}
