/**
 Building full keys and full patterns from prefix, namespace and raw key, and why the
 result keeps namespaces apart.
 */
module KeyBuilder {
  import opened Glob
  import opened Results
  import opened Strings

  predicate IsKeyChar(c: char) {
    'a' <= c <= 'z' || 'A' <= c <= 'Z' || '0' <= c <= '9' || c == '.' || c == '_' || c == ':' || c == '-'
  }

  predicate IsPatternChar(c: char) {
    IsKeyChar(c) || c == '*' || c == '?'
  }

  /** A prefix, namespace or raw key: non-empty, over the key alphabet, free of the separator. */
  predicate ValidPart(part: string, sep: char) {
    part != "" && sep !in part && forall c :: c in part ==> IsKeyChar(c)
  }

  predicate ValidPatternPart(part: string, sep: char) {
    part != "" && sep !in part && forall c :: c in part ==> IsPatternChar(c)
  }

  /** Per-call overrides of the builder's own settings. */
  datatype Options = Options(namespace: Option<string>, prefix: Option<string>, separator: Option<char>)

  const NoOptions := Options(None, None, None)

  /** The scope parts in front of the last one; an empty prefix is left out. */
  function IdentityParts(prefix: string, namespace: Option<string>): seq<string> {
    (if prefix == "" then [] else [prefix]) + (if namespace.None? then [] else [namespace.value])
  }

  predicate AllValid(parts: seq<string>, sep: char) {
    forall i :: 0 <= i < |parts| ==> ValidPart(parts[i], sep)
  }

  /** The full key, or nothing when some part is malformed or the whole is too long. */
  function FullKey(prefix: string, namespace: Option<string>, sep: char, key: string): Option<string> {
    var parts := IdentityParts(prefix, namespace) + [key];
    if AllValid(parts, sep) && |Join(parts, sep)| <= MAX_KEY_LENGTH then Some(Join(parts, sep)) else None
  }

  function FullPattern(prefix: string, namespace: Option<string>, sep: char, pattern: string): Option<string> {
    var identity := IdentityParts(prefix, namespace);
    var full := Join(identity + [pattern], sep);
    if AllValid(identity, sep) && ValidPatternPart(pattern, sep) && |full| <= MAX_KEY_LENGTH then Some(full) else None
  }

  /** One or more characters of the key alphabet, none of them the separator. */
  ghost predicate WellFormed(part: string, sep: char) {
    |part| >= 1 && forall i :: 0 <= i < |part| ==> IsKeyChar(part[i]) && part[i] != sep
  }

  ghost predicate WellFormedPattern(part: string, sep: char) {
    && |part| >= 1
    && forall i :: 0 <= i < |part| ==> (IsKeyChar(part[i]) || part[i] == '*' || part[i] == '?') && part[i] != sep
  }

  ghost predicate WellFormedScope(prefix: string, namespace: Option<string>, sep: char) {
    (prefix == "" || WellFormed(prefix, sep)) && (namespace.Some? ==> WellFormed(namespace.value, sep))
  }

  /** Prefix and namespace, as far as there are any, each followed by the separator, and then `last`. */
  ghost function Qualified(prefix: string, namespace: Option<string>, sep: char, last: string): string {
    (if prefix == "" then "" else prefix + [sep]) + (if namespace.None? then "" else namespace.value + [sep]) + last
  }

  lemma JoinedIsQualified(prefix: string, namespace: Option<string>, sep: char, last: string)
    ensures Join(IdentityParts(prefix, namespace) + [last], sep) == Qualified(prefix, namespace, sep, last)
  {
    var scope := if namespace.None? then [last] else [namespace.value, last];
    var parts := IdentityParts(prefix, namespace) + [last];
    assert parts == if prefix == "" then scope else [prefix] + scope;
    assert namespace.Some? ==> scope[1..] == [last];
    assert prefix != "" ==> parts[1..] == scope;
    assert Join([last], sep) == last;
    assert Join(scope, sep) == (if namespace.None? then "" else namespace.value + [sep]) + last;
    assert prefix != "" ==> prefix + [sep] + Join(scope, sep) == Qualified(prefix, namespace, sep, last);
  }

  lemma AllWellFormed(prefix: string, namespace: Option<string>, sep: char)
    ensures AllValid(IdentityParts(prefix, namespace), sep) <==> WellFormedScope(prefix, namespace, sep)
    ensures forall key :: AllValid(IdentityParts(prefix, namespace) + [key], sep) <==>
                          WellFormedScope(prefix, namespace, sep) && WellFormed(key, sep)
  {
    var parts := IdentityParts(prefix, namespace);
    assert prefix != "" ==> parts[0] == prefix;
    assert namespace.Some? ==> parts[|parts| - 1] == namespace.value;
    forall part ensures ValidPart(part, sep) <==> WellFormed(part, sep) {
    }
    hide ValidPart, WellFormed;
    forall key
      ensures AllValid(parts + [key], sep) <==> WellFormedScope(prefix, namespace, sep) && WellFormed(key, sep)
    {
      assert (parts + [key])[|parts|] == key;
      assert forall i :: 0 <= i < |parts| ==> (parts + [key])[i] == parts[i];
    }
  }

  /** A key is accepted exactly when its parts are well formed and the whole is not too long; then it spells them. */
  lemma FullKeyExactly(prefix: string, namespace: Option<string>, sep: char, key: string)
    ensures var text := Qualified(prefix, namespace, sep, key);
            FullKey(prefix, namespace, sep, key) ==
            if WellFormedScope(prefix, namespace, sep) && WellFormed(key, sep) && |text| <= MAX_KEY_LENGTH
            then Some(text) else None
  {
    JoinedIsQualified(prefix, namespace, sep, key);
    AllWellFormed(prefix, namespace, sep);
    hide WellFormed, WellFormedScope, Join, AllValid;
  }

  lemma PatternIsWellFormed(pattern: string, sep: char)
    ensures ValidPatternPart(pattern, sep) <==> WellFormedPattern(pattern, sep)
  {
    if ValidPatternPart(pattern, sep) {
      forall i | 0 <= i < |pattern|
        ensures (IsKeyChar(pattern[i]) || pattern[i] == '*' || pattern[i] == '?') && pattern[i] != sep
      {
        assert pattern[i] in pattern && IsPatternChar(pattern[i]);
      }
    }
    if WellFormedPattern(pattern, sep) {
      forall c | c in pattern ensures IsPatternChar(c) && c != sep {
        var i :| 0 <= i < |pattern| && pattern[i] == c;
      }
    }
  }

  /** The same of a pattern, which may hold wildcards besides. */
  lemma FullPatternExactly(prefix: string, namespace: Option<string>, sep: char, pattern: string)
    ensures var text := Qualified(prefix, namespace, sep, pattern);
            FullPattern(prefix, namespace, sep, pattern) ==
            if WellFormedScope(prefix, namespace, sep) && WellFormedPattern(pattern, sep) && |text| <= MAX_KEY_LENGTH
            then Some(text) else None
  {
    JoinedIsQualified(prefix, namespace, sep, pattern);
    AllWellFormed(prefix, namespace, sep);
    PatternIsWellFormed(pattern, sep);
    hide WellFormed, WellFormedScope, WellFormedPattern, Join, AllValid, ValidPatternPart;
  }

  lemma {:induction false} JoinReachesLast(parts: seq<string>, sep: char)
    requires parts != []
    ensures |Join(parts, sep)| >= |parts[|parts| - 1]|
  {
    if |parts| > 1 {
      JoinReachesLast(parts[1..], sep);
    }
  }

  /** A built pattern passes the matcher's own validation. */
  lemma FullPatternIsValid(prefix: string, namespace: Option<string>, sep: char, pattern: string)
    requires FullPattern(prefix, namespace, sep, pattern).Some?
    ensures ValidPattern(FullPattern(prefix, namespace, sep, pattern).value)
  {
    JoinReachesLast(IdentityParts(prefix, namespace) + [pattern], sep);
  }

  function OrInvalid(full: Option<string>): Result<string> {
    if full.Some? then Ok(full.value) else Err(InvalidKey)
  }

  class DefaultKeyBuilder {
    const globalPrefix: string
    const globalSeparator: char
    const currentNamespace: Option<string>

    constructor (prefix: string, separator: char, namespace: Option<string>)
      requires namespace != Some("")
      ensures globalPrefix == prefix && globalSeparator == separator && currentNamespace == namespace
    {
      globalPrefix, globalSeparator, currentNamespace := prefix, separator, namespace;
    }

    function NamespaceFor(options: Options): Option<string> {
      if options.namespace.Some? then options.namespace else currentNamespace
    }

    function PrefixFor(options: Options): string {
      if options.prefix.Some? then options.prefix.value else globalPrefix
    }

    function SeparatorFor(options: Options): char {
      if options.separator.Some? then options.separator.value else globalSeparator
    }

    method Build(key: string, options: Options) returns (r: Result<string>)
      ensures r == OrInvalid(FullKey(PrefixFor(options), NamespaceFor(options), SeparatorFor(options), key))
      ensures var prefix := if options.prefix.Some? then options.prefix.value else globalPrefix;
              var namespace := if options.namespace.Some? then options.namespace else currentNamespace;
              var sep := if options.separator.Some? then options.separator.value else globalSeparator;
              var text := Qualified(prefix, namespace, sep, key);
              r == if WellFormedScope(prefix, namespace, sep) && WellFormed(key, sep) && |text| <= MAX_KEY_LENGTH
                   then Ok(text) else Err(InvalidKey)
    {
      FullKeyExactly(PrefixFor(options), NamespaceFor(options), SeparatorFor(options), key);
      hide WellFormed, WellFormedScope, Qualified;
      var separator := SeparatorFor(options);
      var namespace := NamespaceFor(options);
      var prefix := PrefixFor(options);
      if |key| == 0 {
        assert !ValidPart((IdentityParts(prefix, namespace) + [key])[|IdentityParts(prefix, namespace)|], separator);
        return Err(InvalidKey);
      }
      var parts: seq<string> := [];
      if prefix != "" {
        parts := parts + [prefix];
      }
      if namespace.Some? {
        parts := parts + [namespace.value];
      }
      parts := parts + [key];
      assert parts == IdentityParts(prefix, namespace) + [key];
      for i := 0 to |parts|
        invariant forall j :: 0 <= j < i ==> ValidPart(parts[j], separator)
      {
        var ok := ValidatePart(parts[i], separator);
        if !ok {
          return Err(InvalidKey);
        }
      }
      var fullKey := Join(parts, separator);
      if |fullKey| > MAX_KEY_LENGTH {
        return Err(InvalidKey);
      }
      return Ok(fullKey);
    }

    method BuildPattern(pattern: string, options: Options) returns (r: Result<string>)
      ensures r == OrInvalid(FullPattern(PrefixFor(options), NamespaceFor(options), SeparatorFor(options), pattern))
      ensures var prefix := if options.prefix.Some? then options.prefix.value else globalPrefix;
              var namespace := if options.namespace.Some? then options.namespace else currentNamespace;
              var sep := if options.separator.Some? then options.separator.value else globalSeparator;
              var text := Qualified(prefix, namespace, sep, pattern);
              var accepted := WellFormedScope(prefix, namespace, sep) && WellFormedPattern(pattern, sep);
              r == if accepted && |text| <= MAX_KEY_LENGTH then Ok(text) else Err(InvalidKey)
    {
      FullPatternExactly(PrefixFor(options), NamespaceFor(options), SeparatorFor(options), pattern);
      hide WellFormed, WellFormedScope, WellFormedPattern, Qualified;
      var separator := SeparatorFor(options);
      var namespace := NamespaceFor(options);
      var prefix := PrefixFor(options);
      var identity: seq<string> := [];
      if prefix != "" {
        identity := identity + [prefix];
      }
      if namespace.Some? {
        identity := identity + [namespace.value];
      }
      assert identity == IdentityParts(prefix, namespace);
      for i := 0 to |identity|
        invariant forall j :: 0 <= j < i ==> ValidPart(identity[j], separator)
      {
        var ok := ValidatePart(identity[i], separator);
        if !ok {
          return Err(InvalidKey);
        }
      }
      if pattern == "" || separator in pattern || exists c :: c in pattern && !IsPatternChar(c) {
        return Err(InvalidKey);
      }
      var fullPattern := Join(identity + [pattern], separator);
      if |fullPattern| > MAX_KEY_LENGTH {
        return Err(InvalidKey);
      }
      return Ok(fullPattern);
    }

    method ValidatePart(part: string, separator: char) returns (ok: bool)
      ensures ok <==> ValidPart(part, separator)
    {
      if separator in part {
        return false;
      }
      ok := part != "" && forall c :: c in part ==> IsKeyChar(c);
    }
  }

  // ---------------------------------------------------------------------------
  // Keys give their parts back
  // ---------------------------------------------------------------------------

  lemma SplitOfFullKey(prefix: string, namespace: Option<string>, sep: char, key: string)
    requires FullKey(prefix, namespace, sep, key).Some?
    ensures Split(FullKey(prefix, namespace, sep, key).value, sep) == IdentityParts(prefix, namespace) + [key]
  {
    SplitJoin(IdentityParts(prefix, namespace) + [key], sep);
  }

  lemma SplitOfFullPattern(prefix: string, namespace: Option<string>, sep: char, pattern: string)
    requires FullPattern(prefix, namespace, sep, pattern).Some?
    ensures Split(FullPattern(prefix, namespace, sep, pattern).value, sep) ==
            IdentityParts(prefix, namespace) + [pattern]
  {
    SplitJoin(IdentityParts(prefix, namespace) + [pattern], sep);
  }

  /** Under one prefix, a full key determines its namespace and raw key. */
  lemma FullKeyInjective(prefix: string, sep: char, ns1: Option<string>, key1: string, ns2: Option<string>,
      key2: string)
    requires FullKey(prefix, ns1, sep, key1).Some?
    requires FullKey(prefix, ns1, sep, key1) == FullKey(prefix, ns2, sep, key2)
    ensures ns1 == ns2 && key1 == key2
  {
    SplitOfFullKey(prefix, ns1, sep, key1);
    SplitOfFullKey(prefix, ns2, sep, key2);
    var a, b := IdentityParts(prefix, ns1) + [key1], IdentityParts(prefix, ns2) + [key2];
    assert a[|a| - 1] == key1 && b[|b| - 1] == key2;
    var n := if prefix == "" then 0 else 1;
    if ns1.Some? {
      assert a[n] == ns1.value && b[n] == ns2.value;
    }
  }

  // ---------------------------------------------------------------------------
  // Patterns stay in their namespace
  // ---------------------------------------------------------------------------

  /** A segment without wildcards matches only itself. */
  lemma {:induction false} LiteralSegment(pattern: string, value: string)
    requires '*' !in pattern && '?' !in pattern
    ensures SegmentMatches(pattern, value) <==> pattern == value
  {
    if pattern != "" && value != "" {
      LiteralSegment(pattern[1..], value[1..]);
      assert pattern == [pattern[0]] + pattern[1..] && value == [value[0]] + value[1..];
    }
  }

  lemma ValidPartIsLiteral(part: string, sep: char, value: string)
    requires ValidPart(part, sep)
    ensures part != "**"
    ensures SegmentMatches(part, value) <==> part == value
  {
    assert '*' !in part && '?' !in part;
    LiteralSegment(part, value);
    assert "**"[0] == '*';
  }

  lemma OneMoreSegment(first: string, patterns: seq<string>, values: seq<string>, sep: char)
    requires ValidPart(first, sep)
    ensures SegmentsMatch([first] + patterns, values) <==>
            values != [] && values[0] == first && SegmentsMatch(patterns, values[1..])
  {
    assert ([first] + patterns)[1..] == patterns;
    ValidPartIsLiteral(first, sep, if values == [] then "" else values[0]);
  }

  lemma LastSegment(pattern: string, values: seq<string>)
    ensures SegmentsMatch([pattern], values) <==>
            pattern == "**" || (|values| == 1 && SegmentMatches(pattern, values[0]))
  {
    var none: seq<string> := [];
    assert [pattern][1..] == none;
    assert values[|values|..] == none;
    if |values| == 1 {
      assert values[1..] == none;
    }
    assert SegmentsMatch(none, values[|values|..]);
  }

  /** Which built keys a pattern built in scope `scope` reaches. */
  ghost predicate Reaches(scope: Option<string>, pattern: string, namespace: Option<string>, key: string) {
    if pattern != "**" then namespace == scope && SegmentMatches(pattern, key)
    else scope.None? || namespace == scope || (namespace.None? && key == scope.value)
  }

  /**
   A scoped pattern reaches exactly the keys of its own namespace whose raw key it matches.
   The one exception is the whole-segment `**`: unscoped it reaches every key under the
   prefix, and scoped it also reaches the unscoped key named like the namespace.
   */
  lemma PatternReachesItsScope(
    prefix: string, sep: char, scope: Option<string>, pattern: string, namespace: Option<string>, key: string)
    requires FullPattern(prefix, scope, sep, pattern).Some? && FullKey(prefix, namespace, sep, key).Some?
    ensures GlobMatches(FullPattern(prefix, scope, sep, pattern).value, FullKey(prefix, namespace, sep, key).value, sep)
            <==> Reaches(scope, pattern, namespace, key)
  {
    SplitOfFullKey(prefix, namespace, sep, key);
    SplitOfFullPattern(prefix, scope, sep, pattern);
    var patterns, values := IdentityParts(prefix, scope) + [pattern], IdentityParts(prefix, namespace) + [key];
    var inner := (if scope.None? then [] else [scope.value]) + [pattern];
    var tail := (if namespace.None? then [] else [namespace.value]) + [key];
    if prefix != "" {
      assert IdentityParts(prefix, scope)[0] == prefix;
      assert patterns == [prefix] + inner && values == [prefix] + tail;
      OneMoreSegment(prefix, inner, values, sep);
      assert values[1..] == tail;
    } else {
      assert patterns == inner && values == tail;
    }
    ScopedPart(sep, scope, pattern, namespace, key);
  }

  lemma ScopedPart(sep: char, scope: Option<string>, pattern: string, namespace: Option<string>, key: string)
    requires scope.Some? ==> ValidPart(scope.value, sep)
    ensures SegmentsMatch((if scope.None? then [] else [scope.value]) + [pattern],
                          (if namespace.None? then [] else [namespace.value]) + [key])
            <==> Reaches(scope, pattern, namespace, key)
  {
    var tail := (if namespace.None? then [] else [namespace.value]) + [key];
    if scope.None? {
      assert [] + [pattern] == [pattern];
      LastSegment(pattern, tail);
    } else {
      OneMoreSegment(scope.value, [pattern], tail, sep);
      LastSegment(pattern, tail[1..]);
    }
  }
}
