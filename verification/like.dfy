/** LIKE and its escaping: which texts the generated patterns match. */
module Like {

  datatype Dialect = SQLite | Postgres | MySQL

  /** The pattern character that takes the next one literally: the one the generated ESCAPE clause names,
      and without a clause MySQL's backslash. */
  function EscapeChar(d: Dialect): char {
    if d.MySQL? then '\\' else '|'
  }

  function EscapeClause(d: Dialect): string {
    if d.MySQL? then "" else " ESCAPE '|'"
  }

  /** The generated clause names the character the patterns are read with; MySQL's default needs none. */
  lemma EscapeIsNamed(d: Dialect)
    ensures EscapeClause(d) == if d.MySQL? then "" else " ESCAPE '" + [EscapeChar(d)] + "'"
  {
  }

  /** How a database compares characters: by `fold`, whatever its collation makes of them. */
  type Fold = char -> char

  /** text LIKE pattern. */
  predicate Matches(fold: Fold, esc: char, pattern: string, text: string)
    decreases |pattern|, |text|
  {
    if pattern == "" then text == ""
    else if pattern[0] == esc && |pattern| > 1 then
      text != "" && fold(text[0]) == fold(pattern[1]) && Matches(fold, esc, pattern[2..], text[1..])
    else if pattern[0] == '%' then
      Matches(fold, esc, pattern[1..], text) || (text != "" && Matches(fold, esc, pattern, text[1..]))
    else if pattern[0] == '_' then
      text != "" && Matches(fold, esc, pattern[1..], text[1..])
    else
      text != "" && fold(text[0]) == fold(pattern[0]) && Matches(fold, esc, pattern[1..], text[1..])
  }

  function EscapeOne(d: Dialect, c: char): string {
    if d.MySQL? then (if c == '%' || c == '_' then ['\\', c] else [c])
    else if c == '|' || c == '%' || c == '_' then ['|', c]
    else [c]
  }

  /** The replacer over the searched name. */
  function Escape(d: Dialect, name: string): string {
    if name == "" then "" else EscapeOne(d, name[0]) + Escape(d, name[1..])
  }

  /** consentLikePattern, and its twins in the purpose and element stores. */
  function LikePattern(d: Dialect, name: string): string {
    "%" + Escape(d, name) + "%"
  }

  predicate SameText(fold: Fold, a: string, b: string) {
    |a| == |b| && forall i :: 0 <= i < |a| ==> fold(a[i]) == fold(b[i])
  }

  predicate OccursAt(fold: Fold, text: string, name: string, i: nat) {
    i + |name| <= |text| && SameText(fold, text[i..i + |name|], name)
  }

  predicate Contains(fold: Fold, text: string, name: string) {
    exists i :: 0 <= i <= |text| && OccursAt(fold, text, name, i)
  }

  /** A leading % skips any prefix. */
  lemma {:induction false} PercentSkips(fold: Fold, esc: char, rest: string, text: string)
    requires esc != '%'
    ensures Matches(fold, esc, "%" + rest, text) <==>
      exists i :: 0 <= i <= |text| && Matches(fold, esc, rest, text[i..])
    decreases |text|
  {
    assert ("%" + rest)[1..] == rest;
    assert text[0..] == text;
    if text != "" {
      PercentSkips(fold, esc, rest, text[1..]);
      assert forall i :: 0 <= i <= |text| - 1 ==> text[1..][i..] == text[i + 1..];
      if i :| 1 <= i <= |text| && Matches(fold, esc, rest, text[i..]) {
        assert text[1..][i - 1..] == text[i..];
      }
    }
  }

  lemma {:induction false} PercentMatchesAll(fold: Fold, esc: char, text: string)
    requires esc != '%'
    ensures Matches(fold, esc, "%", text)
    decreases |text|
  {
    assert "%"[1..] == "";
    if text != "" {
      PercentMatchesAll(fold, esc, text[1..]);
    }
  }

  lemma SameTextStep(fold: Fold, a: string, b: string)
    requires a != "" && b != ""
    ensures SameText(fold, a, b) <==> fold(a[0]) == fold(b[0]) && SameText(fold, a[1..], b[1..])
  {
    if fold(a[0]) == fold(b[0]) && SameText(fold, a[1..], b[1..]) {
      assert forall i :: 1 <= i < |a| ==> a[i] == a[1..][i - 1] && b[i] == b[1..][i - 1];
    }
  }

  /** What the replacer leaves to be read literally: everything, except that MySQL's does not escape
      the escape character itself. */
  predicate Escapable(d: Dialect, name: string) {
    d.MySQL? ==> '\\' !in name
  }

  lemma EscapedCharIsLiteral(fold: Fold, d: Dialect, c: char, tail: string, text: string)
    requires Escapable(d, [c])
    ensures Matches(fold, EscapeChar(d), EscapeOne(d, c) + tail, text) <==>
              text != "" && fold(text[0]) == fold(c) && Matches(fold, EscapeChar(d), tail, text[1..])
  {
    assert (EscapeOne(d, c) + tail)[|EscapeOne(d, c)|..] == tail;
    assert c in [c];
  }

  /** An escaped name matches itself and nothing else. */
  lemma {:induction false} EscapedIsLiteral(fold: Fold, d: Dialect, name: string, rest: string, text: string)
    requires Escapable(d, name)
    ensures Matches(fold, EscapeChar(d), Escape(d, name) + rest, text) <==>
              |name| <= |text| && SameText(fold, text[..|name|], name) &&
                Matches(fold, EscapeChar(d), rest, text[|name|..])
    decreases |name|
  {
    if name == "" {
      assert Escape(d, name) + rest == rest && text[0..] == text;
    } else {
      var tail := Escape(d, name[1..]) + rest;
      assert Escape(d, name) + rest == EscapeOne(d, name[0]) + tail;
      EscapedCharIsLiteral(fold, d, name[0], tail, text);
      if text != "" {
        EscapedIsLiteral(fold, d, name[1..], rest, text[1..]);
        if |name| <= |text| {
          assert text[..|name|][1..] == text[1..][..|name| - 1] && text[1..][|name| - 1..] == text[|name|..];
          SameTextStep(fold, text[..|name|], name);
        }
      }
    }
  }

  /** Escaping is exact: the pattern matches precisely the texts that contain the name. On SQLite and
      Postgres for every name; on MySQL for every name without a backslash. */
  lemma LikeIsExact(fold: Fold, d: Dialect, name: string, text: string)
    requires Escapable(d, name)
    ensures Matches(fold, EscapeChar(d), LikePattern(d, name), text) <==> Contains(fold, text, name)
  {
    var esc := EscapeChar(d);
    var rest := Escape(d, name) + "%";
    assert LikePattern(d, name) == "%" + rest;
    PercentSkips(fold, esc, rest, text);
    forall i | 0 <= i <= |text|
      ensures Matches(fold, esc, rest, text[i..]) <==> OccursAt(fold, text, name, i)
    {
      EscapedIsLiteral(fold, d, name, "%", text[i..]);
      if |name| <= |text[i..]| {
        PercentMatchesAll(fold, esc, text[i..][|name|..]);
        assert text[i..][..|name|] == text[i..i + |name|];
      }
    }
  }

  // ---- Exactly when MySQL's escaping is exact ----

  /** The shortest text the unescaped part of a MySQL pattern matches: a backslash swallows the
      character after it, or, before an escaped wildcard, frees the wildcard. */
  function Misread(name: string): string {
    if name == "" then ""
    else if name[0] != '\\' then [name[0]] + Misread(name[1..])
    else if |name| == 1 then "%"
    else if name[1] == '%' then "\\" + Misread(name[2..])
    else if name[1] == '_' then "\\x" + Misread(name[2..])
    else [name[1]] + Misread(name[2..])
  }

  lemma {:induction false} MisreadIsShort(name: string)
    ensures |Misread(name)| <= |name|
    decreases |name|
  {
    if name != "" {
      if name[0] != '\\' {
        MisreadIsShort(name[1..]);
      } else if |name| > 1 {
        MisreadIsShort(name[2..]);
      }
    }
  }

  lemma {:induction false} MisreadMatches(fold: Fold, name: string)
    ensures Matches(fold, '\\', Escape(MySQL, name) + "%", Misread(name))
    decreases |name|
  {
    var pattern := Escape(MySQL, name) + "%";
    if name == "" {
      assert pattern == "%";
      PercentMatchesAll(fold, '\\', "");
    } else if name[0] != '\\' {
      MisreadMatches(fold, name[1..]);
      var tail := Escape(MySQL, name[1..]) + "%";
      assert pattern == EscapeOne(MySQL, name[0]) + tail;
      assert pattern[|EscapeOne(MySQL, name[0])|..] == tail;
      assert Misread(name)[1..] == Misread(name[1..]);
    } else if |name| == 1 {
      assert Escape(MySQL, name[1..]) == "";
      assert pattern == "\\%" && pattern[2..] == "" && Misread(name)[1..] == "";
    } else {
      MisreadPairMatches(fold, name);
    }
  }

  lemma {:induction false} MisreadPairMatches(fold: Fold, name: string)
    requires |name| > 1 && name[0] == '\\'
    ensures Matches(fold, '\\', Escape(MySQL, name) + "%", Misread(name))
    decreases |name|, 0
  {
    MisreadMatches(fold, name[2..]);
    assert name[1..][1..] == name[2..] && name[1..][0] == name[1];
    var rest, text := Escape(MySQL, name[2..]) + "%", Misread(name[2..]);
    assert Escape(MySQL, name) == "\\" + (EscapeOne(MySQL, name[1]) + Escape(MySQL, name[2..]));
    assert Escape(MySQL, name) + "%" == "\\" + EscapeOne(MySQL, name[1]) + rest;
    if name[1] == '%' {
      FreedPercent(fold, rest, text);
    } else if name[1] == '_' {
      FreedUnderscore(fold, rest, text);
    } else {
      Swallowed(fold, name[1], rest, text);
    }
  }

  lemma FreedPercent(fold: Fold, rest: string, text: string)
    requires Matches(fold, '\\', rest, text)
    ensures Matches(fold, '\\', "\\" + "\\%" + rest, "\\" + text)
  {
    var pattern := "\\" + "\\%" + rest;
    assert pattern[2..] == "%" + rest && ("%" + rest)[1..] == rest;
    assert ("\\" + text)[1..] == text;
    assert Matches(fold, '\\', "%" + rest, text);
  }

  lemma FreedUnderscore(fold: Fold, rest: string, text: string)
    requires Matches(fold, '\\', rest, text)
    ensures Matches(fold, '\\', "\\" + "\\_" + rest, "\\x" + text)
  {
    var pattern := "\\" + "\\_" + rest;
    assert pattern[2..] == "_" + rest && ("_" + rest)[1..] == rest;
    assert ("\\x" + text)[1..] == "x" + text && ("x" + text)[1..] == text;
    assert Matches(fold, '\\', "_" + rest, "x" + text);
  }

  lemma Swallowed(fold: Fold, c: char, rest: string, text: string)
    requires Matches(fold, '\\', rest, text)
    ensures Matches(fold, '\\', "\\" + [c] + rest, [c] + text)
  {
    var pattern := "\\" + [c] + rest;
    assert pattern[2..] == rest && ([c] + text)[1..] == text;
  }

  /** Characters the argument needs a collation to tell apart. */
  predicate TellsApart(fold: Fold) {
    fold('%') != fold('\\') && fold('x') != fold('_')
  }

  lemma {:induction false} MisreadDiffers(fold: Fold, name: string)
    requires TellsApart(fold) && '\\' in name
    ensures !SameText(fold, Misread(name), name)
    decreases |name|
  {
    var text := Misread(name);
    if name[0] != '\\' {
      assert name == [name[0]] + name[1..];
      MisreadDiffers(fold, name[1..]);
      assert text[1..] == Misread(name[1..]);
      SameTextStep(fold, text, name);
    } else if |name| > 1 {
      MisreadIsShort(name[2..]);
    }
  }

  lemma ShortOccurrence(fold: Fold, text: string, name: string, i: nat)
    requires |text| <= |name| && OccursAt(fold, text, name, i)
    ensures SameText(fold, text, name)
  {
    assert text[i..i + |name|] == text;
  }

  /** On MySQL the pattern is exact if and only if the name has no backslash. */
  lemma MySqlExactIffNoBackslash(fold: Fold, name: string)
    requires TellsApart(fold)
    ensures '\\' !in name <==>
            forall text :: Matches(fold, '\\', LikePattern(MySQL, name), text) <==> Contains(fold, text, name)
  {
    if '\\' !in name {
      forall text
        ensures Matches(fold, '\\', LikePattern(MySQL, name), text) <==> Contains(fold, text, name)
      {
        LikeIsExact(fold, MySQL, name, text);
      }
    } else {
      var text := Misread(name);
      var rest := Escape(MySQL, name) + "%";
      MisreadMatches(fold, name);
      assert LikePattern(MySQL, name) == "%" + rest && text[0..] == text;
      PercentSkips(fold, '\\', rest, text);
      MisreadDiffers(fold, name);
      MisreadIsShort(name);
      if i :| 0 <= i <= |text| && OccursAt(fold, text, name, i) {
        ShortOccurrence(fold, text, name, i);
      }
    }
  }
}
