/** Source validation: what registration may rely on (src/config.rs, lines 268-325 and 455-482). */
module Config {
  import opened Options
  import opened NormalizeQuery

  datatype PostgresSource = PostgresSource(name: string, uri: string, schemas: seq<string>, tables: Option<seq<string>>)

  datatype ConfigError =
    | NoSources
    | EmptyName
    | BadFirstCharacter
    | BadCharacter(c: char)
    | ReservedName
    | DuplicateName
    | BadUri
    | NoSchemas
    | BlankSchema
    | EmptyAllowlist
    | BlankTable

  const RESERVED_SOURCE_NAMES := ["datafusion", "information_schema"]

  predicate IsLower(c: char) {
    'a' <= c <= 'z'
  }

  predicate IsNameCharacter(c: char) {
    IsLower(c) || '0' <= c <= '9' || c == '_'
  }

  /** The first character that may not stand in a name. */
  function FirstBad(s: string): (r: Option<char>)
    ensures r.None? <==> forall i | 0 <= i < |s| :: IsNameCharacter(s[i])
    ensures r.Some? ==> r.value in s && !IsNameCharacter(r.value)
  {
    if s == "" then None
    else if !IsNameCharacter(s[0]) then Some(s[0])
    else
      var r := FirstBad(s[1..]);
      assert forall i | 0 < i < |s| :: s[i] == s[1..][i - 1];
      r
  }

  /** Lowercase letters, digits and underscores, starting with a letter, and not a name the engine owns. */
  predicate ValidName(name: string) {
    && name != "" && IsLower(name[0])
    && (forall i | 0 <= i < |name| :: IsNameCharacter(name[i]))
    && name !in RESERVED_SOURCE_NAMES
  }

  predicate IsNameFault(name: string, e: ConfigError) {
    match e
    case EmptyName => name == ""
    case BadFirstCharacter => name != "" && !('a' <= name[0] <= 'z')
    case BadCharacter(c) => c in name && !('a' <= c <= 'z' || '0' <= c <= '9' || c == '_')
    case ReservedName => name == "datafusion" || name == "information_schema"
    case _ => false
  }

  function ValidateSourceName(name: string): (r: Option<ConfigError>)
    ensures r.Some? ==> IsNameFault(name, r.value)
    ensures r.None? <==> ValidName(name)
    ensures r.None? <==>
      && name != "" && 'a' <= name[0] <= 'z'
      && (forall c | c in name :: 'a' <= c <= 'z' || '0' <= c <= '9' || c == '_')
      && name != "datafusion" && name != "information_schema"
  {
    if name == "" then Some(EmptyName)
    else if !IsLower(name[0]) then Some(BadFirstCharacter)
    else
      assert forall i | 0 < i < |name| :: name[i] == name[1..][i - 1];
      assert forall i | 0 <= i < |name| - 1 :: name[1..][i] == name[i + 1];
      match FirstBad(name[1..])
      case Some(c) =>
        assert c in name;
        Some(BadCharacter(c))
      case None => if name in RESERVED_SOURCE_NAMES then Some(ReservedName) else None
  }

  predicate StartsWith(s: string, prefix: string) {
    |s| >= |prefix| && s[..|prefix|] == prefix
  }

  predicate PlausibleUri(uri: string) {
    StartsWith(uri, "postgres://") || StartsWith(uri, "postgresql://") || '=' in uri
  }

  /** Nothing is left of it after trimming. */
  predicate Blank(s: string) {
    TrimEnd(TrimStart(s)) == ""
  }

  /** A text is blank exactly if it is white space throughout. */
  lemma BlankIsAllWhite(s: string)
    ensures Blank(s) <==> AllWhite(s)
  {
    if AllWhite(s) {
      TrimStartDropsWhite(s, "");
      assert s + "" == s;
      TrimEndDropsWhite("", "");
      assert "" + "" == "";
    } else {
      var i :| 0 <= i < |s| && !White(s[i]);
      WhitespaceIsWhiteSpace(s[i]);
      TrimmingKeeps(s, i);
    }
  }

  lemma {:induction false} TrimStartKeeps(s: string, i: nat)
    requires i < |s| && !IsWhitespace(s[i])
    ensures s[i] in TrimStart(s)
  {
    if IsWhitespace(s[0]) {
      TrimStartKeeps(s[1..], i - 1);
    }
  }

  lemma {:induction false} TrimEndKeepsInner(s: string, i: nat)
    requires i < |s| && !IsWhitespace(s[i])
    ensures TrimEnd(s) != ""
  {
    if IsWhitespace(s[|s| - 1]) {
      TrimEndKeepsInner(s[..|s| - 1], i);
    }
  }

  lemma TrimmingKeeps(s: string, i: nat)
    requires i < |s| && !IsWhitespace(s[i])
    ensures !Blank(s)
  {
    TrimStartKeeps(s, i);
    var k :| 0 <= k < |TrimStart(s)| && TrimStart(s)[k] == s[i];
    TrimEndKeepsInner(TrimStart(s), k);
  }

  /** What one source's settings other than its name must satisfy. */
  predicate ValidSettings(s: PostgresSource) {
    && PlausibleUri(s.uri)
    && s.schemas != [] && (forall i | 0 <= i < |s.schemas| :: !Blank(s.schemas[i]))
    && (s.tables.Some? ==> s.tables.value != [] && forall i | 0 <= i < |s.tables.value| :: !Blank(s.tables.value[i]))
  }

  /** In plain words: a connection string, and no list that is empty or names nothing. */
  lemma ValidSettingsMean(s: PostgresSource)
    ensures ValidSettings(s) <==>
      && ("postgres://" <= s.uri || "postgresql://" <= s.uri || '=' in s.uri)
      && s.schemas != [] && (forall n | n in s.schemas :: !AllWhite(n))
      && (s.tables.Some? ==> s.tables.value != [] && forall n | n in s.tables.value :: !AllWhite(n))
  {
    hide Blank, AllWhite;
    forall n: string ensures Blank(n) <==> AllWhite(n) {
      BlankIsAllWhite(n);
    }
    PlausibleUriMeans(s.uri);
    hide PlausibleUri;
    assert (forall i | 0 <= i < |s.schemas| :: !Blank(s.schemas[i])) <==> (forall n | n in s.schemas :: !AllWhite(n));
  }

  lemma PlausibleUriMeans(uri: string)
    ensures PlausibleUri(uri) <==> "postgres://" <= uri || "postgresql://" <= uri || '=' in uri
  {
  }

  ghost predicate UniqueNames(sources: seq<PostgresSource>) {
    forall i, j | 0 <= i < j < |sources| :: sources[i].name != sources[j].name
  }

  ghost predicate ValidSources(sources: seq<PostgresSource>) {
    && sources != [] && UniqueNames(sources)
    && forall i | 0 <= i < |sources| :: ValidName(sources[i].name) && ValidSettings(sources[i])
  }

  /** What an error says of a source: its name or one of its settings is at fault, or its name was there before. */
  ghost predicate IsFaultOf(sources: seq<PostgresSource>, i: nat, e: ConfigError)
    requires i < |sources|
  {
    var s := sources[i];
    match e
    case DuplicateName => exists k | 0 <= k < i :: sources[k].name == s.name
    case BadUri => !PlausibleUri(s.uri)
    case NoSchemas => s.schemas == []
    case BlankSchema => exists k | 0 <= k < |s.schemas| :: Blank(s.schemas[k])
    case EmptyAllowlist => s.tables == Some([])
    case BlankTable => s.tables.Some? && exists k | 0 <= k < |s.tables.value| :: Blank(s.tables.value[k])
    case _ => IsNameFault(s.name, e)
  }

  /** All sources before source `i` are fine, and the error is a fault of that source. */
  ghost predicate IsFirstFault(sources: seq<PostgresSource>, i: nat, e: ConfigError) {
    i < |sources| && (i > 0 ==> ValidSources(sources[..i])) && IsFaultOf(sources, i, e)
  }

  /**
   The source's loop: none exactly when the configuration is valid, and else a fault
   of the first source that has one.
   */
  method ValidateSources(sources: seq<PostgresSource>) returns (error: Option<ConfigError>)
    ensures error.None? <==> ValidSources(sources)
    ensures error == Some(NoSources) <==> sources == []
    ensures error.Some? && sources != [] ==> exists i :: IsFirstFault(sources, i, error.value)
  {
    hide ValidName, PlausibleUri, Blank;
    if sources == [] {
      return Some(NoSources);
    }
    var seen: set<string> := {};
    for i := 0 to |sources|
      invariant seen == set k | 0 <= k < i :: sources[k].name
      invariant UniqueNames(sources[..i])
      invariant forall k | 0 <= k < i :: ValidName(sources[k].name) && ValidSettings(sources[k])
    {
      var source := sources[i];
      assert i > 0 ==> ValidSources(sources[..i]);
      var nameError := ValidateSourceName(source.name);
      if nameError.Some? {
        assert IsFirstFault(sources, i, nameError.value);
        return nameError;
      }
      if source.name in seen {
        assert IsFirstFault(sources, i, DuplicateName);
        return Some(DuplicateName);
      }
      seen := seen + {source.name};
      if !PlausibleUri(source.uri) {
        assert IsFirstFault(sources, i, BadUri);
        return Some(BadUri);
      }
      if source.schemas == [] {
        assert IsFirstFault(sources, i, NoSchemas);
        return Some(NoSchemas);
      }
      if exists k | 0 <= k < |source.schemas| :: Blank(source.schemas[k]) {
        assert IsFirstFault(sources, i, BlankSchema);
        return Some(BlankSchema);
      }
      if source.tables.Some? {
        if source.tables.value == [] {
          assert IsFirstFault(sources, i, EmptyAllowlist);
          return Some(EmptyAllowlist);
        }
        if exists k | 0 <= k < |source.tables.value| :: Blank(source.tables.value[k]) {
          assert IsFirstFault(sources, i, BlankTable);
          return Some(BlankTable);
        }
      }
    }
    return None;
  }
}
