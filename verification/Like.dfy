/**
 `like_prefix_pattern` of `cachine/backends/sqlite/_schema.py`, with the LIKE operator of SQLite
 (escape character backslash, ASCII letters compared without case) as its partner.
 */
module Like {
  // ---- The pattern ----

  /** `s.replace(c, r)` for a single character c. */
  function ReplaceChar(s: string, c: char, r: string): string {
    if s == "" then "" else (if s[0] == c then r else [s[0]]) + ReplaceChar(s[1..], c, r)
  }

  /** The three chained replacements. */
  function LikePrefixPattern(prefix: string): string {
    ReplaceChar(ReplaceChar(ReplaceChar(prefix, '\\', "\\\\"), '%', "\\%"), '_', "\\_") + "%"
  }

  /** One escape per character, in one pass. */
  function Escape(s: string): string {
    if s == "" then ""
    else (if s[0] in {'\\', '%', '_'} then ['\\', s[0]] else [s[0]]) + Escape(s[1..])
  }

  lemma {:induction false} ReplaceConcat(a: string, b: string, c: char, r: string)
    ensures ReplaceChar(a + b, c, r) == ReplaceChar(a, c, r) + ReplaceChar(b, c, r)
  {
    if a == "" {
      assert a + b == b;
    } else {
      assert (a + b)[1..] == a[1..] + b;
      ReplaceConcat(a[1..], b, c, r);
    }
  }

  /** The chain, whose later replacements see the output of the earlier ones, escapes each character once. */
  lemma {:induction false} ChainEscapesOnce(s: string)
    ensures LikePrefixPattern(s) == Escape(s) + "%"
  {
    if s != "" {
      ChainEscapesOnce(s[1..]);
      var c := s[..1];
      assert s == c + s[1..];
      var p1 := ReplaceChar(c, '\\', "\\\\");
      var p2 := ReplaceChar(p1, '%', "\\%");
      assert ReplaceChar(c[1..], '\\', "\\\\") == "";
      ReplaceConcat(c, s[1..], '\\', "\\\\");
      ReplaceConcat(p1, ReplaceChar(s[1..], '\\', "\\\\"), '%', "\\%");
      ReplaceConcat(p2, ReplaceChar(ReplaceChar(s[1..], '\\', "\\\\"), '%', "\\%"), '_', "\\_");
      ChainOfOne(s[0]);
      assert c == [s[0]];
      var tail := ReplaceChar(ReplaceChar(ReplaceChar(s[1..], '\\', "\\\\"), '%', "\\%"), '_', "\\_");
      assert tail + "%" == Escape(s[1..]) + "%";
      assert tail == (tail + "%")[..|tail|] == Escape(s[1..]);
    }
  }

  lemma ReplaceInOne(x: char, c: char, r: string)
    ensures ReplaceChar([x], c, r) == if x == c then r else [x]
  {}

  lemma ReplaceInTwo(x: char, y: char, c: char, r: string)
    ensures ReplaceChar([x, y], c, r) == (if x == c then r else [x]) + (if y == c then r else [y])
  {
    assert [x, y] == [x] + [y];
    ReplaceConcat([x], [y], c, r);
    ReplaceInOne(x, c, r);
    ReplaceInOne(y, c, r);
  }

  lemma ChainOfOne(x: char)
    ensures ReplaceChar(ReplaceChar(ReplaceChar([x], '\\', "\\\\"), '%', "\\%"), '_', "\\_")
            == if x in {'\\', '%', '_'} then ['\\', x] else [x]
  {
    ReplaceInOne(x, '\\', "\\\\");
    ReplaceInOne(x, '%', "\\%");
    ReplaceInOne(x, '_', "\\_");
    ReplaceInTwo('\\', '\\', '%', "\\%");
    ReplaceInTwo('\\', '\\', '_', "\\_");
    ReplaceInTwo('\\', '%', '_', "\\_");
  }

  // ---- LIKE ... ESCAPE '\' ----

  function Fold(c: char): char {
    if 'A' <= c <= 'Z' then c - 'A' + 'a' else c
  }

  predicate SameChar(a: char, b: char) {
    Fold(a) == Fold(b)
  }

  /** Whether SQLite's `text LIKE pattern ESCAPE '\'` holds. */
  predicate Matches(pattern: string, text: string)
    decreases |pattern| + |text|
  {
    if pattern == "" then text == ""
    else if pattern[0] == '%' then Matches(pattern[1..], text) || (text != "" && Matches(pattern, text[1..]))
    else if pattern[0] == '_' then text != "" && Matches(pattern[1..], text[1..])
    else if pattern[0] == '\\' then
      |pattern| >= 2 && text != "" && SameChar(pattern[1], text[0]) && Matches(pattern[2..], text[1..])
    else text != "" && SameChar(pattern[0], text[0]) && Matches(pattern[1..], text[1..])
  }

  /** The prefix is, up to the case of ASCII letters, a prefix of the key. */
  ghost predicate FoldedPrefix(prefix: string, key: string) {
    |prefix| <= |key| && forall i | 0 <= i < |prefix| :: SameChar(prefix[i], key[i])
  }

  lemma {:induction false} PercentMatchesAll(text: string)
    ensures Matches("%", text)
  {
    assert "%"[1..] == "";
    if text != "" { PercentMatchesAll(text[1..]); }
  }

  lemma {:induction false} EscapedMatches(prefix: string, key: string)
    ensures Matches(Escape(prefix) + "%", key) <==> FoldedPrefix(prefix, key)
  {
    var pattern := Escape(prefix) + "%";
    if prefix == "" {
      assert pattern == "%";
      PercentMatchesAll(key);
    } else {
      var rest := Escape(prefix[1..]) + "%";
      if prefix[0] in {'\\', '%', '_'} {
        assert pattern == ['\\', prefix[0]] + rest;
        assert pattern[2..] == rest;
      } else {
        assert pattern == [prefix[0]] + rest;
        assert pattern[1..] == rest;
      }
      if key != "" {
        EscapedMatches(prefix[1..], key[1..]);
        FoldedPrefixStep(prefix, key);
      }
    }
  }

  lemma FoldedPrefixStep(prefix: string, key: string)
    requires prefix != "" && key != ""
    ensures FoldedPrefix(prefix, key) <==> SameChar(prefix[0], key[0]) && FoldedPrefix(prefix[1..], key[1..])
  {}

  /**
   For every prefix and key, wildcards and backslashes included, the pattern matches exactly the
   keys with that prefix.
   */
  lemma EscapingIsExact(prefix: string, key: string)
    ensures Matches(LikePrefixPattern(prefix), key) <==> FoldedPrefix(prefix, key)
  {
    ChainEscapesOnce(prefix);
    EscapedMatches(prefix, key);
  }

  // ---- Why it is escaped, and what LIKE cannot tell apart ----

  /** The texts that a pattern without backslashes matches when each wildcard stands for one character. */
  lemma {:induction false} WildcardsMatch(pattern: string, text: string, key: string)
    requires '\\' !in pattern && |pattern| == |text|
    requires forall i | 0 <= i < |pattern| :: pattern[i] == text[i] || pattern[i] in {'%', '_'}
    ensures Matches(pattern + "%", text + key)
  {
    if pattern == "" {
      assert pattern + "%" == "%";
      PercentMatchesAll(text + key);
    } else {
      assert (pattern + "%")[1..] == pattern[1..] + "%" && (text + key)[1..] == text[1..] + key;
      assert pattern[0] in pattern && forall c | c in pattern[1..] :: c in pattern;
      WildcardsMatch(pattern[1..], text[1..], key);
      if pattern[0] == '%' { assert Matches(pattern + "%", (text + key)[1..]); }
    }
  }

  lemma {:induction false} NothingToEscape(s: string)
    requires '\\' !in s && '%' !in s && '_' !in s
    ensures Escape(s) == s
  {
    if s != "" {
      assert s[0] in s && forall c | c in s[1..] :: c in s;
      NothingToEscape(s[1..]);
    }
  }

  /** Without the escaping the pattern would be exact only for prefixes that have no wildcard in them. */
  lemma EscapingIsNeededIff(prefix: string)
    requires '\\' !in prefix
    ensures (forall key :: Matches(prefix + "%", key) <==> FoldedPrefix(prefix, key))
            <==> '%' !in prefix && '_' !in prefix
  {
    if '%' !in prefix && '_' !in prefix {
      NothingToEscape(prefix);
      forall key ensures Matches(prefix + "%", key) <==> FoldedPrefix(prefix, key) { EscapedMatches(prefix, key); }
    } else {
      var i :| 0 <= i < |prefix| && prefix[i] in {'%', '_'};
      var key := prefix[i := '0'];
      WildcardsMatch(prefix, key, "");
      assert key + "" == key;
      assert !SameChar(prefix[i], key[i]);
      assert Matches(prefix + "%", key) && !FoldedPrefix(prefix, key);
    }
  }

  /** One letter is the small form of the other, in ASCII. */
  predicate CaseOf(small: char, capital: char) {
    'a' <= small <= 'z' && small as int == capital as int + 32
  }

  lemma SameCharIff(a: char, b: char)
    ensures SameChar(a, b) <==> a == b || CaseOf(a, b) || CaseOf(b, a)
  {}

  /** Exactly the keys whose first characters are those of the prefix, or their other case, match. */
  lemma MatchesIff(prefix: string, key: string)
    ensures Matches(LikePrefixPattern(prefix), key)
            <==> |prefix| <= |key|
                 && forall i | 0 <= i < |prefix| ::
                      prefix[i] == key[i] || CaseOf(prefix[i], key[i]) || CaseOf(key[i], prefix[i])
  {
    EscapingIsExact(prefix, key);
    forall i | 0 <= i < |prefix| && i < |key|
      ensures SameChar(prefix[i], key[i])
              <==> prefix[i] == key[i] || CaseOf(prefix[i], key[i]) || CaseOf(key[i], prefix[i])
    {
      SameCharIff(prefix[i], key[i]);
    }
  }

  // ---- Namespaces ----

  /** Two namespaces that LIKE cannot tell apart. */
  ghost predicate SameFolded(a: string, b: string) {
    |a| == |b| && FoldedPrefix(a, b)
  }

  /**
   A key of the colon-free namespace b matches the pattern of the colon-free namespace a exactly
   when the two names agree up to ASCII case.
   */
  lemma NamespacePattern(a: string, b: string, key: string)
    requires ':' !in a && ':' !in b
    ensures Matches(LikePrefixPattern(a + ":"), b + ":" + key) <==> SameFolded(a, b)
  {
    var prefix, full := a + ":", b + ":" + key;
    EscapingIsExact(prefix, full);
    if FoldedPrefix(prefix, full) {
      assert forall i | 0 <= i < |a| :: prefix[i] == a[i] != ':';
      assert forall i | 0 <= i < |b| :: full[i] == b[i] != ':';
      assert prefix[|a|] == ':' && full[|b|] == ':';
      assert SameChar(prefix[|a|], full[|a|]);
      assert |b| < |prefix| ==> SameChar(prefix[|b|], full[|b|]);
      forall i | 0 <= i < |a| ensures SameChar(a[i], b[i]) { assert SameChar(prefix[i], full[i]); }
    }
    if SameFolded(a, b) {
      forall i | 0 <= i < |prefix| ensures SameChar(prefix[i], full[i]) {
        if i < |a| { assert SameChar(a[i], b[i]); }
      }
    }
  }
}
