/** Positional placeholders: `?` for SQLite and MySQL, rewritten to `$1`, `$2`, ... for Postgres. */
module Placeholders {
  import opened Numerals

  function Holes(s: string): nat {
    if s == "" then 0 else (if s[0] == '?' then 1 else 0) + Holes(s[1..])
  }

  lemma {:induction false} HolesConcat(a: string, b: string)
    ensures Holes(a + b) == Holes(a) + Holes(b)
    decreases |a|
  {
    if a == "" {
      assert a + b == b;
    } else {
      assert (a + b)[1..] == a[1..] + b;
      HolesConcat(a[1..], b);
    }
  }

  lemma {:induction false} HolesFree(s: string)
    ensures Holes(s) == 0 <==> '?' !in s
    decreases |s|
  {
    if s != "" {
      assert s == [s[0]] + s[1..];
      HolesFree(s[1..]);
    }
  }

  /** The query with its placeholders numbered from `k`. */
  function Numbered(s: string, k: nat): string {
    if s == "" then ""
    else if s[0] == '?' then "$" + Decimal(k) + Numbered(s[1..], k + 1)
    else [s[0]] + Numbered(s[1..], k)
  }

  lemma {:induction false} NumberedConcat(a: string, b: string, k: nat)
    ensures Numbered(a + b, k) == Numbered(a, k) + Numbered(b, k + Holes(a))
    decreases |a|
  {
    if a == "" {
      assert a + b == b;
    } else {
      assert (a + b)[1..] == a[1..] + b;
      NumberedConcat(a[1..], b, if a[0] == '?' then k + 1 else k);
    }
  }

  /** Text without placeholders is left as it is. */
  lemma {:induction false} NumberedKeeps(s: string, k: nat)
    requires '?' !in s
    ensures Numbered(s, k) == s
    decreases |s|
  {
    if s != "" {
      assert s == [s[0]] + s[1..];
      NumberedKeeps(s[1..], k);
    }
  }

  /** The k-th placeholder becomes `$k`, and what stands before and after it is treated on its own. */
  lemma KthPlaceholder(before: string, after: string)
    ensures var k := Holes(before) + 1;
            Numbered(before + "?" + after, 1) == Numbered(before, 1) + "$" + Decimal(k) + Numbered(after, k + 1)
  {
    var k := Holes(before) + 1;
    assert before + "?" + after == before + ("?" + after);
    NumberedConcat(before, "?" + after, 1);
    assert ("?" + after)[1..] == after;
  }

  /** ConvertToPostgresParams. */
  method ConvertToPostgresParams(query: string) returns (result: string)
    ensures result == Numbered(query, 1)
  {
    var paramIndex := 1;
    result := "";
    for i := 0 to |query|
      invariant paramIndex >= 1
      invariant Numbered(query, 1) == result + Numbered(query[i..], paramIndex)
    {
      assert query[i..][1..] == query[i + 1..];
      if query[i] == '?' {
        result := result + "$" + Decimal(paramIndex);
        paramIndex := paramIndex + 1;
      } else {
        result := result + [query[i]];
      }
    }
  }

  // ---- What the two forms bind ----

  /** A query as its database reads it: characters, and references to arguments by number. */
  datatype Token = Plain(c: char) | Argument(n: nat)

  /** Positional reading: the placeholders are arguments `k`, `k + 1`, ... */
  function ReadPositional(s: string, k: nat): seq<Token> {
    if s == "" then []
    else if s[0] == '?' then [Argument(k)] + ReadPositional(s[1..], k + 1)
    else [Plain(s[0])] + ReadPositional(s[1..], k)
  }

  /** Numbered reading: a dollar sign and all the digits after it. */
  function ReadNumbered(s: string): seq<Token>
    decreases |s|
  {
    if s == "" then []
    else if s[0] == '$' && LeadingDigits(s[1..]) > 0 then
      var n := LeadingDigits(s[1..]);
      [Argument(ValueOf(s[1..][..n]))] + ReadNumbered(s[1 + n..])
    else [Plain(s[0])] + ReadNumbered(s[1..])
  }

  /** No placeholder runs into a digit. */
  predicate Separated(s: string) {
    forall i :: 0 <= i < |s| - 1 && s[i] == '?' ==> !IsDigit(s[i + 1])
  }

  lemma SeparatedStep(s: string)
    requires s != ""
    ensures Separated(s) <==> Separated(s[1..]) && (|s| > 1 && s[0] == '?' ==> !IsDigit(s[1]))
  {
    if Separated(s[1..]) && (|s| > 1 && s[0] == '?' ==> !IsDigit(s[1])) {
      forall i | 0 <= i < |s| - 1 && s[i] == '?'
        ensures !IsDigit(s[i + 1])
      {
        if i > 0 {
          assert s[1..][i - 1] == s[i] && s[1..][i] == s[i + 1];
        }
      }
    }
    if Separated(s) {
      forall i | 0 <= i < |s[1..]| - 1 && s[1..][i] == '?'
        ensures !IsDigit(s[1..][i + 1])
      {
        assert s[i + 1] == '?';
      }
    }
  }

  lemma NumberedStart(s: string, k: nat)
    ensures LeadingDigits(Numbered(s, k)) > 0 <==> s != "" && IsDigit(s[0])
  {
  }

  lemma ReadOneNumbered(k: nat, rest: string)
    ensures var text := "$" + Decimal(k) + rest;
            var n := LeadingDigits(rest);
            if n == 0 then ReadNumbered(text) == [Argument(k)] + ReadNumbered(rest)
            else ReadNumbered(text) != [] && ReadNumbered(text)[0].Argument? && ReadNumbered(text)[0].n >= 10 * k
  {
    var text := "$" + Decimal(k) + rest;
    DigitsDenote(k);
    assert text[1..] == Decimal(k) + rest;
    LeadingIsMaximal(Decimal(k), rest);
    var n := LeadingDigits(rest);
    var m := LeadingDigits(text[1..]);
    assert text[1..][..m] == Decimal(k) + rest[..n];
    ValueGrows(Decimal(k), rest[..n]);
    if n == 0 {
      assert Decimal(k) + rest[..n] == Decimal(k);
      assert text[1 + m..] == rest;
    }
  }

  /** Both dialects read the same query with the same arguments in the same places exactly when no
      placeholder is followed by a digit. */
  lemma {:induction false} DialectsBindAlike(s: string, k: nat)
    requires '$' !in s && k >= 1
    ensures ReadNumbered(Numbered(s, k)) == ReadPositional(s, k) <==> Separated(s)
    decreases |s|
  {
    if s != "" {
      assert s == [s[0]] + s[1..];
      SeparatedStep(s);
      if s[0] == '?' {
        var rest := Numbered(s[1..], k + 1);
        DialectsBindAlike(s[1..], k + 1);
        NumberedStart(s[1..], k + 1);
        ReadOneNumbered(k, rest);
        assert ([Argument(k)] + ReadPositional(s[1..], k + 1))[1..] == ReadPositional(s[1..], k + 1);
        assert ([Argument(k)] + ReadNumbered(rest))[1..] == ReadNumbered(rest);
      } else {
        var rest := Numbered(s[1..], k);
        DialectsBindAlike(s[1..], k);
        assert Numbered(s, k)[1..] == rest;
        assert ([Plain(s[0])] + ReadPositional(s[1..], k))[1..] == ReadPositional(s[1..], k);
        assert ([Plain(s[0])] + ReadNumbered(rest))[1..] == ReadNumbered(rest);
      }
    }
  }
}
