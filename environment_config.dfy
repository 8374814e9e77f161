/**
 * The `.env` loader of the server's EnvironmentConfig: a file of lines becomes a
 * key/value table that is added, under the name "envFile", as the last
 * property source of the Spring environment.
 *
 * Per line: blank lines and lines whose trimmed form starts with '#' are
 * dropped; the rest are cut at the first '=' (a line without one is ignored),
 * key and value are trimmed, and one pair of matching quotes around the value
 * is removed. Entries are stored in line order, so the last line for a key
 * wins. A value that is a single quote mark passes the quote test and makes
 * `substring(1, 0)` throw; that exception is not the caught IOException, so it
 * escapes and the environment is left as it was.
 */
module EnvironmentConfig {
  import opened Wrappers
  import opened JavaString

  /** The name the loaded table is registered under. */
  const EnvSourceName: string := "envFile"

  // ---------------------------------------------------------------------------
  // One line
  // ---------------------------------------------------------------------------

  /** The stream filter: the trimmed line is empty or starts with '#'. */
  predicate IsBlankOrComment(line: string) {
    var t := Trim(line);
    t == [] || StartsWith(t, "#")
  }

  /**
   * The filter drops exactly the lines that are all blank and the lines whose
   * first non-blank character is '#'.
   */
  lemma BlankOrCommentFirstChar(line: string)
    ensures IsBlankOrComment(line) <==>
      AllBlank(line) ||
      exists i :: 0 <= i < |line| && line[i] == '#' && forall k :: 0 <= k < i ==> IsBlank(line[k])
  {
    var t := Trim(line);
    TrimEmpty(line);
    TrimCutsOnlyBlanks(line);
    var j: nat :| TrimmedFrom(line, t, j);
    if t != [] {
      assert t[0] == line[j];
      assert StartsWith(t, "#") <==> t[0] == '#' by {
        assert t[..1] == [t[0]];
      }
      forall i | 0 <= i < |line| && line[i] == '#' && forall k :: 0 <= k < i ==> IsBlank(line[k])
        ensures i == j
      {
      }
    }
  }

  predicate IsQuoteMark(c: char) {
    c == '"' || c == '\''
  }

  /** The value begins with a quote mark and ends with the same one (a lone quote mark does both). */
  predicate IsWrapped(value: string) {
    |value| >= 1 && IsQuoteMark(value[0]) && value[|value| - 1] == value[0]
  }

  /**
   * The quote removal applied to the trimmed value: `"…"` or `'…'` loses one
   * character at each end; anything else, mismatched quotes included, is kept.
   * A lone quote mark passes both tests and `substring(1, 0)` throws.
   */
  function Unquote(value: string): (r: Result<string>)
    ensures r.Err? <==> |value| == 1 && IsQuoteMark(value[0])
    ensures r.Err? ==> r.error == StringIndexOutOfBounds(1, 0, 1)
    ensures IsWrapped(value) && |value| >= 2 ==> r == Ok(value[1..|value| - 1])
    ensures !IsWrapped(value) ==> r == Ok(value)
  {
    if (StartsWith(value, "\"") && EndsWith(value, "\"")) || (StartsWith(value, "'") && EndsWith(value, "'")) then
      Substring(value, 1, |value| - 1)
    else
      Ok(value)
  }

  /** What one line of the file does to the table. */
  datatype LineOutcome =
    | Skipped
    | Entry(key: string, value: string)
    | Thrown(error: StringException)

  /** The filter and the `forEach` body for a single line. */
  function ParseLine(line: string): (r: LineOutcome)
    ensures IsBlankOrComment(line) ==> r == Skipped
    ensures '=' !in line ==> r == Skipped
    ensures r.Thrown? ==> r.error == StringIndexOutOfBounds(1, 0, 1)
  {
    if IsBlankOrComment(line) then Skipped
    else
      var parts := SplitLimitTwo(line, '=');
      if |parts| != 2 then Skipped
      else
        match Unquote(Trim(parts[1]))
        case Ok(value) => Entry(Trim(parts[0]), value)
        case Err(e) => Thrown(e)
  }

  /** A stored key holds no '=' (the cut is at the first one) and has no blank ends. */
  lemma ParseLineKey(line: string)
    requires ParseLine(line).Entry?
    ensures '=' !in ParseLine(line).key && HasNoBlankEnds(ParseLine(line).key)
  {
    SplitLimitTwoJoins(line, '=');
    TrimKeepsOut(SplitLimitTwo(line, '=')[0], '=');
  }

  /**
   * A kept line `a=b`, with no '=' in `a`, is cut at that first '=': the key is
   * trim(a) and the value comes from trim(b) alone, later '=' signs included;
   * it is unwrapped exactly once and not trimmed again.
   */
  lemma ParseAssignment(a: string, b: string)
    requires '=' !in a
    requires !IsBlankOrComment(a + "=" + b)
    ensures !IsWrapped(Trim(b)) ==> ParseLine(a + "=" + b) == Entry(Trim(a), Trim(b))
    ensures IsWrapped(Trim(b)) && |Trim(b)| >= 2 ==>
      ParseLine(a + "=" + b) == Entry(Trim(a), Trim(b)[1..|Trim(b)| - 1])
    ensures IsWrapped(Trim(b)) && |Trim(b)| == 1 ==>
      ParseLine(a + "=" + b) == Thrown(StringIndexOutOfBounds(1, 0, 1))
  {
    SplitAtFirst(a, b, '=');
  }

  /** A line whose first non-blank character is '#' is a comment, whatever follows, '=' included. */
  lemma CommentLineSkipped(blanks: string, rest: string)
    requires AllBlank(blanks)
    ensures ParseLine(blanks + "#" + rest) == Skipped
  {
    var line := blanks + "#" + rest;
    var r := Trim(line);
    TrimCutsOnlyBlanks(line);
    var i: nat :| TrimmedFrom(line, r, i);
    assert line[|blanks|] == '#';
    assert forall k :: 0 <= k < |blanks| ==> line[k] == blanks[k];
    assert i == |blanks|;
    assert r[..1] == "#";
  }

  /** A key that `ParseLine` gives back unchanged: no '=', no blank ends, not starting with '#'. */
  predicate IsPlainKey(key: string) {
    '=' !in key && HasNoBlankEnds(key) && (key == [] || key[0] != '#')
  }

  /** The line `key="value"`. */
  function QuotedLine(key: string, value: string): string {
    key + "=" + "\"" + value + "\""
  }

  /** Writing an entry as `key="value"` and reading it back gives the same entry, for every value. */
  lemma ParseQuotedLine(key: string, value: string)
    requires IsPlainKey(key)
    ensures ParseLine(QuotedLine(key, value)) == Entry(key, value)
  {
    var b := "\"" + value + "\"";
    var line := QuotedLine(key, value);
    assert line == key + "=" + b;
    assert HasNoBlankEnds(line) by {
      assert line[0] == if key == [] then '=' else key[0];
      assert line[|line| - 1] == '"';
    }
    TrimNoBlankEnds(line);
    assert !IsBlankOrComment(line) by {
      assert line[..1] == [line[0]];
    }
    TrimNoBlankEnds(b);
    TrimNoBlankEnds(key);
    assert b[1..|b| - 1] == value;
    ParseAssignment(key, b);
  }

  /**
   * Writing an entry as `key=value` and reading it back gives the same entry,
   * when the value has no blank ends and is not wrapped in matching quotes;
   * it may hold '=' and '#'.
   */
  lemma ParsePlainLine(key: string, value: string)
    requires IsPlainKey(key)
    requires HasNoBlankEnds(value) && !IsWrapped(value)
    ensures ParseLine(key + "=" + value) == Entry(key, value)
  {
    var line := key + "=" + value;
    assert HasNoBlankEnds(line) by {
      assert line[0] == if key == [] then '=' else key[0];
      assert line[|line| - 1] == if value == [] then '=' else value[|value| - 1];
    }
    TrimNoBlankEnds(line);
    assert !IsBlankOrComment(line) by {
      assert line[..1] == [line[0]];
    }
    TrimNoBlankEnds(value);
    TrimNoBlankEnds(key);
    ParseAssignment(key, value);
  }

  // ---------------------------------------------------------------------------
  // The whole file
  // ---------------------------------------------------------------------------

  /** The table after some lines, or the line whose exception escaped. */
  datatype EnvResult =
    | Loaded(table: map<string, string>)
    | Aborted(index: nat, error: StringException)

  /** The outcome of every line, in file order. */
  function ParseLines(lines: seq<string>): seq<LineOutcome> {
    seq(|lines|, i requires 0 <= i < |lines| => ParseLine(lines[i]))
  }

  /**
   * The `forEach` over line outcomes: entries are stored in order into a table
   * that starts empty, and the first exception stops everything.
   */
  function Collect(outcomes: seq<LineOutcome>): (r: EnvResult)
    ensures r.Aborted? ==> r.index < |outcomes| && outcomes[r.index] == Thrown(r.error)
  {
    if outcomes == [] then Loaded(map[])
    else
      var n := |outcomes| - 1;
      match Collect(outcomes[..n])
      case Aborted(i, e) => Aborted(i, e)
      case Loaded(table) =>
        match outcomes[n]
        case Skipped => Loaded(table)
        case Entry(key, value) => Loaded(table[key := value])
        case Thrown(e) => Aborted(n, e)
  }

  /** The table the loader builds from the file's lines, or the line whose exception escaped. */
  function ParseEnv(lines: seq<string>): (r: EnvResult)
    ensures r.Aborted? ==> r.index < |lines| && ParseLine(lines[r.index]) == Thrown(r.error)
  {
    Collect(ParseLines(lines))
  }

  /** The outcome stores an entry under `key`. */
  predicate Defines(outcome: LineOutcome, key: string) {
    outcome.Entry? && outcome.key == key
  }

  /**
   * Later entries overwrite earlier ones: a key is in the table exactly when
   * some outcome stores it, and its value is the one of the last such outcome.
   */
  lemma {:induction false} CollectLastWins(outcomes: seq<LineOutcome>, key: string)
    requires Collect(outcomes).Loaded?
    ensures key in Collect(outcomes).table <==> exists i :: 0 <= i < |outcomes| && Defines(outcomes[i], key)
    ensures key in Collect(outcomes).table ==>
      exists i :: 0 <= i < |outcomes|
        && outcomes[i] == Entry(key, Collect(outcomes).table[key])
        && forall j :: i < j < |outcomes| ==> !Defines(outcomes[j], key)
  {
    if outcomes != [] {
      var n := |outcomes| - 1;
      var prefix := outcomes[..n];
      CollectLastWins(prefix, key);
      var before := Collect(prefix).table;
      var table := Collect(outcomes).table;
      assert forall i :: 0 <= i < n ==> prefix[i] == outcomes[i];
      if !Defines(outcomes[n], key) && key in before {
        var i :| 0 <= i < n
          && prefix[i] == Entry(key, before[key])
          && forall j :: i < j < n ==> !Defines(prefix[j], key);
        assert outcomes[i] == Entry(key, table[key]);
      }
    }
  }

  /** Collecting stops exactly when some outcome is an exception, and at the first one. */
  lemma {:induction false} CollectAbortsAtFirstThrow(outcomes: seq<LineOutcome>)
    ensures Collect(outcomes).Aborted? <==> exists i :: 0 <= i < |outcomes| && outcomes[i].Thrown?
    ensures Collect(outcomes).Aborted? ==>
      forall j :: 0 <= j < Collect(outcomes).index ==> !outcomes[j].Thrown?
  {
    if outcomes != [] {
      var n := |outcomes| - 1;
      var prefix := outcomes[..n];
      CollectAbortsAtFirstThrow(prefix);
      assert forall i :: 0 <= i < n ==> prefix[i] == outcomes[i];
    }
  }

  /**
   * Collecting `a + b` is collecting `a`, then `b` on top: the tables combine
   * with `b`'s entries winning, and an exception in `b` is reported at its
   * position in the whole.
   */
  lemma {:induction false} CollectAppend(a: seq<LineOutcome>, b: seq<LineOutcome>)
    ensures Collect(a + b) ==
      match Collect(a)
      case Aborted(_, _) => Collect(a)
      case Loaded(ta) =>
        match Collect(b)
        case Loaded(tb) => Loaded(ta + tb)
        case Aborted(j, e) => Aborted(|a| + j, e)
  {
    if b == [] {
      assert a + b == a;
      if Collect(a).Loaded? {
        assert Collect(a).table + map[] == Collect(a).table;
      }
    } else {
      var n := |b| - 1;
      CollectAppend(a, b[..n]);
      assert (a + b)[..|a| + n] == a + b[..n];
      assert (a + b)[|a| + n] == b[n];
      assert b[..n + 1] == b;
      if Collect(a).Loaded? && Collect(b[..n]).Loaded? && b[n].Entry? {
        var ta, tb := Collect(a).table, Collect(b[..n]).table;
        assert (ta + tb)[b[n].key := b[n].value] == ta + tb[b[n].key := b[n].value];
      }
    }
  }

  /** One more outcome: a skip keeps the table, an entry is stored over it, an exception ends everything there. */
  lemma CollectStep(outcomes: seq<LineOutcome>, i: nat)
    requires i < |outcomes| && Collect(outcomes[..i]).Loaded?
    ensures outcomes[i].Skipped? ==> Collect(outcomes[..i + 1]) == Collect(outcomes[..i])
    ensures outcomes[i].Entry? ==>
      Collect(outcomes[..i + 1]) == Loaded(Collect(outcomes[..i]).table[outcomes[i].key := outcomes[i].value])
    ensures outcomes[i].Thrown? ==> Collect(outcomes) == Aborted(i, outcomes[i].error)
  {
    var prefix := outcomes[..i + 1];
    assert prefix[..i] == outcomes[..i] && prefix[i] == outcomes[i];
    if outcomes[i].Thrown? {
      assert Collect(prefix) == Aborted(i, outcomes[i].error);
      CollectAppend(prefix, outcomes[i + 1..]);
      assert prefix + outcomes[i + 1..] == outcomes;
    }
  }


  /**
   * For the file: a key is in the table exactly when some line stores it, and
   * its value is that of the last line storing it, a line with an '='.
   */
  lemma ParseEnvLastWins(lines: seq<string>, key: string)
    requires ParseEnv(lines).Loaded?
    ensures key in ParseEnv(lines).table <==> exists i :: 0 <= i < |lines| && Defines(ParseLine(lines[i]), key)
    ensures key in ParseEnv(lines).table ==>
      exists i :: 0 <= i < |lines| && '=' in lines[i]
        && ParseLine(lines[i]) == Entry(key, ParseEnv(lines).table[key])
        && forall j :: i < j < |lines| ==> !Defines(ParseLine(lines[j]), key)
  {
    var outcomes := ParseLines(lines);
    CollectLastWins(outcomes, key);
    assert forall i :: 0 <= i < |lines| ==> outcomes[i] == ParseLine(lines[i]);
    if key in ParseEnv(lines).table {
      var i :| 0 <= i < |outcomes|
        && outcomes[i] == Entry(key, ParseEnv(lines).table[key])
        && forall j :: i < j < |outcomes| ==> !Defines(outcomes[j], key);
      assert '=' in lines[i];
    }
  }

  /** The load fails exactly when some line throws, and it fails at the first such line. */
  lemma ParseEnvAbortsAtFirstThrow(lines: seq<string>)
    ensures ParseEnv(lines).Aborted? <==> exists i :: 0 <= i < |lines| && ParseLine(lines[i]).Thrown?
    ensures ParseEnv(lines).Aborted? ==>
      && ParseLine(lines[ParseEnv(lines).index]) == Thrown(ParseEnv(lines).error)
      && forall j :: 0 <= j < ParseEnv(lines).index ==> !ParseLine(lines[j]).Thrown?
  {
    var outcomes := ParseLines(lines);
    CollectAbortsAtFirstThrow(outcomes);
    assert forall i :: 0 <= i < |lines| ==> outcomes[i] == ParseLine(lines[i]);
  }

  // ---------------------------------------------------------------------------
  // The state the loader changes
  // ---------------------------------------------------------------------------

  /** The `java.util.Properties` table the lines are stored into. */
  class Properties {
    var table: map<string, string>

    constructor ()
      ensures table == map[]
    {
      table := map[];
    }

    /** `setProperty`: stores the pair, replacing any value the key had. */
    method SetProperty(key: string, value: string)
      modifies this
      ensures table == old(table)[key := value]
    {
      table := table[key := value];
    }
  }

  /** A named table in the environment. */
  datatype PropertySource = PropertySource(name: string, properties: map<string, string>)

  /** The sources with every one named `name` taken out, order kept. */
  function Without(sources: seq<PropertySource>, name: string): (r: seq<PropertySource>)
    ensures forall s :: s in r <==> s in sources && s.name != name
  {
    if sources == [] then []
    else if sources[0].name == name then Without(sources[1..], name)
    else [sources[0]] + Without(sources[1..], name)
  }

  /** No two sources share a name. */
  predicate UniqueNames(sources: seq<PropertySource>) {
    forall i, j :: 0 <= i < j < |sources| ==> sources[i].name != sources[j].name
  }

  /** A source put in front of sources with other names keeps the names unique. */
  lemma UniqueNamesCons(source: PropertySource, sources: seq<PropertySource>)
    requires UniqueNames(sources)
    requires forall k :: 0 <= k < |sources| ==> sources[k].name != source.name
    ensures UniqueNames([source] + sources)
  {
  }

  /** Taking out the sources of one name keeps the other names unique. */
  lemma {:induction false} WithoutKeepsUniqueNames(sources: seq<PropertySource>, name: string)
    requires UniqueNames(sources)
    ensures UniqueNames(Without(sources, name))
  {
    if sources != [] {
      var rest := sources[1..];
      assert UniqueNames(rest) by {
        assert forall i :: 0 <= i < |rest| ==> rest[i] == sources[i + 1];
      }
      WithoutKeepsUniqueNames(rest, name);
      if sources[0].name != name {
        var kept := Without(rest, name);
        forall k | 0 <= k < |kept| ensures kept[k].name != sources[0].name {
          assert kept[k] in rest;
          var m :| 0 <= m < |rest| && rest[m] == kept[k];
          assert rest[m] == sources[m + 1];
        }
        UniqueNamesCons(sources[0], kept);
      }
    }
  }

  /** The property sources of a Spring environment, searched first to last. */
  class Environment {
    var propertySources: seq<PropertySource>

    ghost predicate Valid()
      reads this
    {
      UniqueNames(propertySources)
    }

    constructor (sources: seq<PropertySource>)
      requires UniqueNames(sources)
      ensures Valid() && propertySources == sources
    {
      propertySources := sources;
    }

    /** `addLast`: a source of the same name is removed, then the new one goes at the end. */
    method AddLast(source: PropertySource)
      requires Valid()
      modifies this
      ensures Valid()
      ensures propertySources == Without(old(propertySources), source.name) + [source]
    {
      WithoutKeepsUniqueNames(propertySources, source.name);
      var rest := Without(propertySources, source.name);
      propertySources := rest + [source];
      assert forall i :: 0 <= i < |rest| ==> rest[i] in rest;
    }
  }

  /** The try-with-resources block: stream the lines through the filter and `forEach` into a fresh table. */
  method ReadProperties(lines: seq<string>) returns (r: EnvResult)
    ensures r == ParseEnv(lines)
  {
    ghost var outcomes := ParseLines(lines);
    var properties := new Properties();
    var i := 0;
    while i < |lines|
      invariant 0 <= i <= |lines|
      invariant Collect(outcomes[..i]) == Loaded(properties.table)
    {
      var outcome := ParseLine(lines[i]);
      CollectStep(outcomes, i);
      match outcome {
        case Skipped =>
        case Entry(key, value) =>
          properties.SetProperty(key, value);
        case Thrown(e) =>
          return Aborted(i, e);
      }
      i := i + 1;
    }
    assert outcomes[..i] == outcomes;
    r := Loaded(properties.table);
  }

  /** How `loadEnvFile` ends: normally, or with an exception its caller sees. */
  datatype LoadOutcome = Returned | Raised(error: StringException)

  /**
   * `loadEnvFile`: `file` is the file's lines, or None when opening it fails
   * with the IOException that is caught and ignored.
   */
  method LoadEnvFile(environment: Environment, file: Option<seq<string>>) returns (outcome: LoadOutcome)
    requires environment.Valid()
    modifies environment
    ensures environment.Valid()
    ensures file.None? ==> outcome == Returned && environment.propertySources == old(environment.propertySources)
    ensures file.Some? && ParseEnv(file.value).Loaded? ==>
      && outcome == Returned
      && environment.propertySources ==
         Without(old(environment.propertySources), EnvSourceName)
           + [PropertySource(EnvSourceName, ParseEnv(file.value).table)]
    ensures file.Some? && ParseEnv(file.value).Aborted? ==>
      && outcome == Raised(ParseEnv(file.value).error)
      && environment.propertySources == old(environment.propertySources)
  {
    match file {
      case None =>
        outcome := Returned;
      case Some(lines) =>
        var r := ReadProperties(lines);
        match r {
          case Aborted(_, e) =>
            outcome := Raised(e);
          case Loaded(table) =>
            environment.AddLast(PropertySource(EnvSourceName, table));
            outcome := Returned;
        }
    }
  }
}
