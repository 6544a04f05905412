/** Escaping of search text for SQL LIKE, and the meaning of the conditions built from it. */
module LikePattern {

  // ---- LIKE ----

  /** LIKE with backslash as the escape character: % stands for any text, _ for any character, and
      a backslash at the very end for itself. */
  ghost predicate Like(x: string, p: string)
    decreases |p|
  {
    if p == "" then x == ""
    else if p[0] == '%' then exists k :: 0 <= k <= |x| && Like(x[k..], p[1..])
    else if x == "" then false
    else if p[0] == '_' then Like(x[1..], p[1..])
    else if p[0] == '\\' && |p| > 1 then x[0] == p[1] && Like(x[1..], p[2..])
    else x[0] == p[0] && Like(x[1..], p[1..])
  }

  function EscapeChar(c: char): string {
    if c == '%' || c == '_' then ['\\', c] else [c]
  }

  /** Puts a backslash before each wildcard, and leaves backslashes alone. */
  function Escape(s: string): string {
    if s == "" then "" else EscapeChar(s[0]) + Escape(s[1..])
  }

  // ---- Literal meaning ----

  predicate StartsWith(x: string, s: string) {
    s <= x
  }

  predicate EndsWith(x: string, s: string) {
    |s| <= |x| && x[|x| - |s|..] == s
  }

  ghost predicate Contains(x: string, s: string) {
    exists k :: 0 <= k <= |x| && s <= x[k..]
  }

  // ---- Text without a backslash ----

  lemma EscapedCharIsLiteral(x: string, c: char, rest: string)
    requires c != '\\'
    ensures Like(x, EscapeChar(c) + rest) <==> x != "" && x[0] == c && Like(x[1..], rest)
  {
    var p := EscapeChar(c) + rest;
    if c == '%' || c == '_' {
      assert p[2..] == rest && p[0] == '\\' && p[1] == c;
    } else {
      assert p[1..] == rest && p[0] == c;
    }
  }

  lemma {:induction false} EscapedIsLiteral(x: string, s: string, rest: string)
    requires '\\' !in s
    ensures Like(x, Escape(s) + rest) <==> s <= x && Like(x[|s|..], rest)
    decreases |s|
  {
    hide Like, EscapeChar;
    if s == "" {
      assert Escape(s) + rest == rest && x[0..] == x;
    } else {
      var tail := Escape(s[1..]) + rest;
      assert s[0] in s && Escape(s) + rest == EscapeChar(s[0]) + tail;
      EscapedCharIsLiteral(x, s[0], tail);
      if x != "" {
        EscapedIsLiteral(x[1..], s[1..], rest);
        assert x == [x[0]] + x[1..] && s == [s[0]] + s[1..];
        assert |s| <= |x| ==> x[1..][|s[1..]|..] == x[|s|..];
      }
    }
  }

  lemma EscapeFirst(x: string, c: char, p: string)
    ensures Like(x, ['\\', c] + p) <==> x != "" && x[0] == c && Like(x[1..], p)
  {
    var q := ['\\', c] + p;
    assert q[2..] == p && q[0] == '\\' && q[1] == c;
  }

  lemma AnyCharFirst(x: string, p: string)
    ensures Like(x, "_" + p) <==> x != "" && Like(x[1..], p)
  {
    assert ("_" + p)[1..] == p;
  }

  lemma LoneBackslash(x: string)
    ensures Like(x, "\\") <==> x == "\\"
  {
    assert "\\"[1..] == "";
    assert x != "" && x[1..] == "" ==> x == [x[0]];
  }

  lemma MatchAll(x: string)
    ensures Like(x, "%")
  {
    assert "%"[1..] == "" && x[|x|..] == "";
  }

  lemma PercentFirst(x: string, p: string)
    ensures Like(x, "%" + p) <==> exists k :: 0 <= k <= |x| && Like(x[k..], p)
  {
    assert ("%" + p)[1..] == p;
  }

  // ---- Text with a backslash ----

  /** A text that the escaped pattern matches although it is not the text searched for: a backslash
      swallows the character after it, or takes the escape away from a wildcard. `last` is what a
      backslash at the end of the text turns into. */
  function Impostor(s: string, last: char): string {
    if s == "" then ""
    else if s[0] != '\\' then [s[0]] + Impostor(s[1..], last)
    else if |s| == 1 then [last]
    else if s[1] == '%' then ['\\'] + Impostor(s[2..], last)
    else if s[1] == '_' then ['\\', 'a'] + Impostor(s[2..], last)
    else [s[1]] + Impostor(s[2..], last)
  }

  lemma {:induction false} ImpostorDiffers(s: string, last: char)
    requires last != '\\'
    ensures |Impostor(s, last)| <= |s|
    ensures '\\' in s ==> Impostor(s, last) != s
    decreases |s|
  {
    if s != "" && s[0] != '\\' {
      ImpostorDiffers(s[1..], last);
      assert s == [s[0]] + s[1..];
      assert Impostor(s, last)[1..] == Impostor(s[1..], last);
    } else if |s| > 1 {
      ImpostorDiffers(s[2..], last);
    }
  }

  lemma {:induction false} InnerImpostorDiffers(s: string)
    ensures |Impostor(s, '\\')| <= |s|
    ensures s != "" && '\\' in s[..|s| - 1] ==> Impostor(s, '\\') != s
    decreases |s|
  {
    if s != "" && s[0] != '\\' {
      InnerImpostorDiffers(s[1..]);
      assert s == [s[0]] + s[1..];
      assert s[..|s| - 1] == if |s| == 1 then "" else [s[0]] + s[1..][..|s| - 2];
      assert Impostor(s, '\\')[1..] == Impostor(s[1..], '\\');
    } else if |s| > 1 {
      InnerImpostorDiffers(s[2..]);
    }
  }

  lemma {:induction false} ImpostorMatches(s: string, rest: string, last: char)
    requires (rest == "" && last == '\\') || (rest == "%" && last == '%')
    ensures Like(Impostor(s, last), Escape(s) + rest)
    decreases |s|
  {
    var p, w := Escape(s) + rest, Impostor(s, last);
    if s == "" {
      MatchAll("");
      assert p == rest;
    } else if s[0] != '\\' {
      ImpostorMatches(s[1..], rest, last);
      assert w[1..] == Impostor(s[1..], last);
      assert p == EscapeChar(s[0]) + (Escape(s[1..]) + rest);
      EscapedCharIsLiteral(w, s[0], Escape(s[1..]) + rest);
    } else if |s| == 1 {
      assert Escape(s[1..]) == "" && p == ['\\'] + rest && w[1..] == "";
      assert Like("", "");
      if rest == "" { assert p[1..] == ""; } else { assert p[1] == '%' && p[2..] == ""; }
    } else {
      ImpostorMatches(s[2..], rest, last);
      SwallowedMatches(s, rest, last);
    }
  }

  lemma SwallowedMatches(s: string, rest: string, last: char)
    requires |s| > 1 && s[0] == '\\'
    requires Like(Impostor(s[2..], last), Escape(s[2..]) + rest)
    ensures Like(Impostor(s, last), Escape(s) + rest)
  {
    hide Like, Escape;
    var tail := Escape(s[2..]) + rest;
    SwallowedPattern(s, rest);
    SwallowedHead(s[1], Impostor(s[2..], last), tail);
    if s[1] == '%' {
      assert Impostor(s, last) == ['\\'] + Impostor(s[2..], last);
    } else if s[1] == '_' {
      assert Impostor(s, last) == ['\\', 'a'] + Impostor(s[2..], last);
    } else {
      assert Impostor(s, last) == [s[1]] + Impostor(s[2..], last);
    }
  }

  /** How the pattern reads when the text begins with a backslash. */
  lemma SwallowedPattern(s: string, rest: string)
    requires |s| > 1 && s[0] == '\\'
    ensures Escape(s) + rest == (['\\'] + EscapeChar(s[1])) + (Escape(s[2..]) + rest)
  {
    EscapeUnfolds(s);
    EscapeUnfolds(s[1..]);
    hide Escape;
    assert s[1..][1..] == s[2..];
    Associate(['\\'], EscapeChar(s[1]), Escape(s[2..]), rest);
  }

  lemma EscapeUnfolds(s: string)
    requires s != ""
    ensures Escape(s) == EscapeChar(s[0]) + Escape(s[1..])
  {
  }

  lemma Associate(a: string, b: string, c: string, d: string)
    ensures (a + (b + c)) + d == (a + b) + (c + d)
  {
    assert (a + (b + c)) + d == ((a + b) + c) + d;
  }

  /** A backslash before `c`, and a text that the pattern with it matches. */
  lemma SwallowedHead(c: char, w: string, tail: string)
    requires Like(w, tail)
    ensures var p := (['\\'] + EscapeChar(c)) + tail;
            if c == '%' then Like(['\\'] + w, p)
            else if c == '_' then Like(['\\', 'a'] + w, p)
            else Like([c] + w, p)
  {
    hide Like;
    var p := (['\\'] + EscapeChar(c)) + tail;
    if c == '%' {
      assert p == ['\\', '\\'] + ("%" + tail) && (['\\'] + w)[1..] == w && w[0..] == w;
      PercentFirst(w, tail);
      EscapeFirst(['\\'] + w, '\\', "%" + tail);
    } else if c == '_' {
      var x := ['a'] + w;
      assert p == ['\\', '\\'] + ("_" + tail) && x[1..] == w;
      assert ['\\', 'a'] + w == ['\\'] + x && (['\\'] + x)[1..] == x;
      AnyCharFirst(x, tail);
      EscapeFirst(['\\'] + x, '\\', "_" + tail);
    } else {
      assert p == ['\\', c] + tail && ([c] + w)[1..] == w;
      EscapeFirst([c] + w, c, tail);
    }
  }

  // ---- The three conditions ----

  lemma ContainsMeaning(x: string, s: string)
    requires '\\' !in s
    ensures Like(x, "%" + Escape(s) + "%") <==> Contains(x, s)
  {
    var p := Escape(s) + "%";
    assert "%" + Escape(s) + "%" == "%" + p;
    PercentFirst(x, p);
    forall k | 0 <= k <= |x| ensures Like(x[k..], p) <==> s <= x[k..] {
      EscapedIsLiteral(x[k..], s, "%");
      if s <= x[k..] { MatchAll(x[k..][|s|..]); }
    }
  }

  lemma StartsMeaning(x: string, s: string)
    requires '\\' !in s
    ensures Like(x, Escape(s) + "%") <==> StartsWith(x, s)
  {
    EscapedIsLiteral(x, s, "%");
    if s <= x { MatchAll(x[|s|..]); }
  }

  /** A backslash at the end of the text does no harm here. */
  lemma WholeMeaning(x: string, s: string)
    requires s == "" || '\\' !in s[..|s| - 1]
    ensures Like(x, Escape(s)) <==> x == s
  {
    hide Like, Escape;
    if '\\' !in s {
      EscapedIsLiteral(x, s, "");
      assert Escape(s) + "" == Escape(s);
      if s <= x { NothingLeft(x[|s|..]); }
      assert s <= x && x[|s|..] == "" ==> x == s;
    } else {
      var init := s[..|s| - 1];
      assert s == init + ['\\'];
      EscapeConcat(init, "\\");
      EscapeBackslash();
      EscapedIsLiteral(x, init, "\\");
      if init <= x {
        LoneBackslash(x[|init|..]);
        assert x == init + x[|init|..];
      }
    }
  }

  lemma NothingLeft(x: string)
    ensures Like(x, "") <==> x == ""
  {
  }

  lemma EscapeBackslash()
    ensures Escape("\\") == "\\"
  {
    assert "\\"[1..] == "";
  }

  lemma {:induction false} EscapeConcat(s: string, t: string)
    ensures Escape(s + t) == Escape(s) + Escape(t)
  {
    hide EscapeChar;
    if s == "" {
      assert s + t == t;
    } else {
      EscapeConcat(s[1..], t);
      assert (s + t)[1..] == s[1..] + t;
      assert Escape(s + t) == EscapeChar(s[0]) + (Escape(s[1..]) + Escape(t));
    }
  }

  lemma EndsMeaning(x: string, s: string)
    requires s == "" || '\\' !in s[..|s| - 1]
    ensures Like(x, "%" + Escape(s)) <==> EndsWith(x, s)
  {
    PercentFirst(x, Escape(s));
    forall k | 0 <= k <= |x| ensures Like(x[k..], Escape(s)) <==> x[k..] == s {
      WholeMeaning(x[k..], s);
    }
    if EndsWith(x, s) {
      assert x[|x| - |s|..] == s;
    }
  }

  /** Searching for a part means what it says, for every text, if and only if there is no backslash
      in what is searched for. */
  lemma ContainsIffNoBackslash(s: string)
    ensures (forall x :: Like(x, "%" + Escape(s) + "%") <==> Contains(x, s)) <==> '\\' !in s
  {
    if '\\' !in s {
      forall x ensures Like(x, "%" + Escape(s) + "%") <==> Contains(x, s) {
        ContainsMeaning(x, s);
      }
    } else {
      var w := Impostor(s, '%');
      ImpostorMatches(s, "%", '%');
      ImpostorDiffers(s, '%');
      PercentFirst(w, Escape(s) + "%");
      assert "%" + Escape(s) + "%" == "%" + (Escape(s) + "%") && w[0..] == w;
      assert !Contains(w, s);
    }
  }

  lemma StartsIffNoBackslash(s: string)
    ensures (forall x :: Like(x, Escape(s) + "%") <==> StartsWith(x, s)) <==> '\\' !in s
  {
    if '\\' !in s {
      forall x ensures Like(x, Escape(s) + "%") <==> StartsWith(x, s) {
        StartsMeaning(x, s);
      }
    } else {
      ImpostorMatches(s, "%", '%');
      ImpostorDiffers(s, '%');
      assert !StartsWith(Impostor(s, '%'), s);
    }
  }

  /** For the end of a text, a final backslash is also fine. */
  lemma EndsIffNoInnerBackslash(s: string)
    ensures (forall x :: Like(x, "%" + Escape(s)) <==> EndsWith(x, s))
            <==> (s == "" || '\\' !in s[..|s| - 1])
  {
    if s == "" || '\\' !in s[..|s| - 1] {
      forall x ensures Like(x, "%" + Escape(s)) <==> EndsWith(x, s) {
        EndsMeaning(x, s);
      }
    } else {
      var w := Impostor(s, '\\');
      ImpostorMatches(s, "", '\\');
      InnerImpostorDiffers(s);
      PercentFirst(w, Escape(s));
      assert Escape(s) + "" == Escape(s) && w[0..] == w;
      assert !EndsWith(w, s);
    }
  }

  // ---- Conditions of a query ----

  /** An absent text is the empty one: neither adds a condition. */
  datatype Search = Search(property: string, pattern: string, startsWith: string, endsWith: string,
                           allowWildCards: bool)

  datatype Condition = Condition(property: string, like: string)

  ghost predicate Selected(row: string -> string, conditions: seq<Condition>) {
    forall c | c in conditions :: Like(row(c.property), c.like)
  }

  // A search with wildcards: some part of the text matches the pattern itself.

  ghost predicate PartMatches(x: string, p: string) {
    exists k, m :: 0 <= k <= m <= |x| && Like(x[k..m], p)
  }

  ghost predicate StartMatches(x: string, p: string) {
    exists m :: 0 <= m <= |x| && Like(x[..m], p)
  }

  ghost predicate EndMatches(x: string, p: string) {
    exists k :: 0 <= k <= |x| && Like(x[k..], p)
  }

  lemma CharFirst(x: string, c: char, p: string)
    requires c != '%' && c != '_' && c != '\\'
    ensures Like(x, [c] + p) <==> x != "" && x[0] == c && Like(x[1..], p)
  {
    assert ([c] + p)[1..] == p;
  }

  /** Patterns that begin alike: what is true of the rest is true of the whole. */
  lemma {:induction false} AnyTextAfter(x: string, p: string)
    requires '\\' !in p
    ensures Like(x, p + "%") <==> StartMatches(x, p)
    decreases |p|, 0
  {
    hide Like;
    if p == "" {
      assert p + "%" == "%" && x[..0] == "";
      MatchAll(x);
      NothingLeft("");
    } else {
      var c, rest := p[0], p[1..];
      assert p == [c] + rest && p + "%" == [c] + (rest + "%") && c in p;
      if c == '%' {
        AnyTextAfterPercent(x, rest);
      } else if x == "" {
        NoEmptyMatch(c, rest);
        NoEmptyMatch(c, rest + "%");
        assert x[..0] == "";
      } else {
        AnyTextAfter(x[1..], rest);
        OneCharThen(x, c, rest);
      }
    }
  }

  lemma NoEmptyMatch(c: char, p: string)
    requires c != '%'
    ensures !Like("", [c] + p)
  {
  }

  lemma AnyTextAfterPercent(x: string, rest: string)
    requires '\\' !in rest
    ensures Like(x, "%" + (rest + "%")) <==> StartMatches(x, "%" + rest)
    decreases |rest|, 1
  {
    hide Like;
    PercentFirst(x, rest + "%");
    forall k | 0 <= k <= |x| ensures Like(x[k..], rest + "%") <==> StartMatches(x[k..], rest) {
      AnyTextAfter(x[k..], rest);
    }
    forall m | 0 <= m <= |x|
      ensures Like(x[..m], "%" + rest) <==> exists k :: 0 <= k <= m && Like(x[..m][k..], rest)
    {
      PercentFirst(x[..m], rest);
    }
    SplitAnywhere(x, rest);
  }

  /** The same part of a text, cut out from either side first. */
  lemma SplitAnywhere(x: string, p: string)
    ensures (exists k :: 0 <= k <= |x| && StartMatches(x[k..], p))
            <==> exists m :: 0 <= m <= |x| && EndMatches(x[..m], p)
  {
    hide Like;
    if k, n :| 0 <= k <= |x| && 0 <= n <= |x[k..]| && Like(x[k..][..n], p) {
      assert x[k..][..n] == x[..k + n][k..];
      assert EndMatches(x[..k + n], p);
    }
    if m, k :| 0 <= m <= |x| && 0 <= k <= |x[..m]| && Like(x[..m][k..], p) {
      assert x[..m][k..] == x[k..][..m - k];
      assert StartMatches(x[k..], p);
    }
  }

  lemma OneCharThen(x: string, c: char, rest: string)
    requires x != "" && c != '%' && c != '\\'
    requires Like(x[1..], rest + "%") <==> StartMatches(x[1..], rest)
    ensures Like(x, [c] + (rest + "%")) <==> StartMatches(x, [c] + rest)
  {
    hide Like;
    FirstChar(x, c, rest + "%");
    NoEmptyMatch(c, rest);
    assert x[..0] == "";
    forall m | 0 < m <= |x|
      ensures Like(x[..m], [c] + rest) <==> (c == '_' || x[0] == c) && Like(x[1..][..m - 1], rest)
    {
      FirstChar(x[..m], c, rest);
      assert x[..m][1..] == x[1..][..m - 1];
    }
    if m :| 0 <= m <= |x| && Like(x[..m], [c] + rest) {
      assert 0 < m && Like(x[1..][..m - 1], rest);
    }
    if n :| 0 <= n <= |x[1..]| && Like(x[1..][..n], rest) {
      assert Like(x[..n + 1], [c] + rest) <==> (c == '_' || x[0] == c);
    }
  }

  lemma FirstChar(x: string, c: char, p: string)
    requires x != "" && c != '%' && c != '\\'
    ensures Like(x, [c] + p) <==> (c == '_' || x[0] == c) && Like(x[1..], p)
  {
    hide Like;
    if c == '_' { AnyCharFirst(x, p); } else { CharFirst(x, c, p); }
  }

  lemma WildcardMeaning(x: string, p: string)
    requires '\\' !in p
    ensures Like(x, "%" + p + "%") <==> PartMatches(x, p)
    ensures Like(x, p + "%") <==> StartMatches(x, p)
    ensures Like(x, "%" + p) <==> EndMatches(x, p)
  {
    hide Like;
    AnyTextAfter(x, p);
    PercentFirst(x, p);
    PercentFirst(x, p + "%");
    assert "%" + p + "%" == "%" + (p + "%");
    forall k | 0 <= k <= |x| ensures Like(x[k..], p + "%") <==> StartMatches(x[k..], p) {
      AnyTextAfter(x[k..], p);
    }
    PartByStart(x, p);
  }

  lemma PartByStart(x: string, p: string)
    ensures PartMatches(x, p) <==> exists k :: 0 <= k <= |x| && StartMatches(x[k..], p)
  {
    hide Like;
    if k, m :| 0 <= k <= m <= |x| && Like(x[k..m], p) {
      assert x[k..][..m - k] == x[k..m];
      assert StartMatches(x[k..], p);
    }
    if k, n :| 0 <= k <= |x| && 0 <= n <= |x[k..]| && Like(x[k..][..n], p) {
      assert x[k..][..n] == x[k..k + n];
    }
  }

  /** What a search asks of a row: that the text contains, starts with and ends with the given
      texts; with wildcards, that a part, the start and the end match them. */
  ghost predicate Meets(row: string -> string, search: Search) {
    var x := row(search.property);
    if search.allowWildCards then
      && (search.pattern == "" || PartMatches(x, search.pattern))
      && (search.startsWith == "" || StartMatches(x, search.startsWith))
      && (search.endsWith == "" || EndMatches(x, search.endsWith))
    else
      && Contains(x, search.pattern)
      && StartsWith(x, search.startsWith)
      && EndsWith(x, search.endsWith)
  }

  predicate NoBackslash(search: Search) {
    '\\' !in search.pattern && '\\' !in search.startsWith && '\\' !in search.endsWith
  }

  function Text(search: Search, s: string): string {
    if search.allowWildCards then s else Escape(s)
  }

  function ConditionsOf(search: Search): seq<Condition> {
    (if search.pattern == "" then []
     else [Condition(search.property, "%" + Text(search, search.pattern) + "%")])
    + (if search.startsWith == "" then []
       else [Condition(search.property, Text(search, search.startsWith) + "%")])
    + (if search.endsWith == "" then []
       else [Condition(search.property, "%" + Text(search, search.endsWith))])
  }

  lemma ConditionsMeanSearch(row: string -> string, search: Search)
    requires NoBackslash(search)
    ensures Selected(row, ConditionsOf(search)) <==> Meets(row, search)
  {
    hide Like, Escape, ConditionsOf, PartMatches, StartMatches, EndMatches;
    var x := row(search.property);
    SelectedConcat(row, search);
    if search.allowWildCards {
      WildcardMeaning(x, search.pattern);
      WildcardMeaning(x, search.startsWith);
      WildcardMeaning(x, search.endsWith);
    } else {
      ContainsMeaning(x, search.pattern);
      StartsMeaning(x, search.startsWith);
      EndsMeaning(x, search.endsWith);
      assert "" <= x[0..] && x[|x|..] == "";
    }
  }

  /** Each text that is given is a pattern, escaped unless wildcards are allowed. */
  ghost predicate Matched(row: string -> string, search: Search) {
    var x := row(search.property);
    var raw := search.allowWildCards;
    && (search.pattern == ""
        || Like(x, "%" + (if raw then search.pattern else Escape(search.pattern)) + "%"))
    && (search.startsWith == ""
        || Like(x, (if raw then search.startsWith else Escape(search.startsWith)) + "%"))
    && (search.endsWith == ""
        || Like(x, "%" + (if raw then search.endsWith else Escape(search.endsWith))))
  }

  lemma SelectedConcat(row: string -> string, search: Search)
    ensures Selected(row, ConditionsOf(search)) <==> Matched(row, search)
  {
    hide Like, Escape;
    var cs := ConditionsOf(search);
    var a := Condition(search.property, "%" + Text(search, search.pattern) + "%");
    var b := Condition(search.property, Text(search, search.startsWith) + "%");
    var c := Condition(search.property, "%" + Text(search, search.endsWith));
    assert search.pattern != "" ==> a in cs;
    assert search.startsWith != "" ==> b in cs;
    assert search.endsWith != "" ==> c in cs;
    assert forall d | d in cs ::
      || (d == a && search.pattern != "")
      || (d == b && search.startsWith != "")
      || (d == c && search.endsWith != "");
  }

  /** Adds the conditions of every search to the query. */
  method BuildQuery(searches: seq<Search>) returns (conditions: seq<Condition>)
    ensures (forall s | s in searches :: NoBackslash(s)) ==>
      forall row: string -> string ::
        Selected(row, conditions) <==> forall s | s in searches :: Meets(row, s)
    // With backslashes the escaped texts are matched as they stand.
    ensures forall row: string -> string ::
      Selected(row, conditions) <==> forall s | s in searches :: Matched(row, s)
  {
    hide Like, Escape, Meets, ConditionsOf, Matched;
    conditions := [];
    for i := 0 to |searches|
      invariant forall row: string -> string ::
        Selected(row, conditions) <==> forall s | s in searches[..i] :: Matched(row, s)
      invariant (forall s | s in searches :: NoBackslash(s)) ==>
        forall row: string -> string ::
          Selected(row, conditions) <==> forall s | s in searches[..i] :: Meets(row, s)
    {
      var search := searches[i];
      ghost var before := conditions;
      conditions := conditions + ConditionsOf(search);
      forall row: string -> string
        ensures Selected(row, conditions) <==> forall s | s in searches[..i + 1] :: Matched(row, s)
      {
        SelectedConcat(row, search);
        assert searches[..i + 1] == searches[..i] + [search];
        assert Selected(row, conditions)
          <==> Selected(row, before) && Selected(row, ConditionsOf(search));
      }
      if forall s | s in searches :: NoBackslash(s) {
        forall row: string -> string
          ensures Selected(row, conditions) <==> forall s | s in searches[..i + 1] :: Meets(row, s)
        {
          ConditionsMeanSearch(row, search);
          assert searches[..i + 1] == searches[..i] + [search];
          assert Selected(row, conditions)
            <==> Selected(row, before) && Selected(row, ConditionsOf(search));
        }
      }
    }
    assert searches[..|searches|] == searches;
  }
}
