/** Environment variables in the configuration text: `${NAME}` is replaced by NAME's value. */
module Substitution {
  import opened Wrappers
  import opened Sequences

  /** os.Getenv: the empty string for a variable that is not set. */
  type Environment = string -> string

  predicate OpensAt(s: string, i: nat) {
    i + 1 < |s| && s[i] == '$' && s[i + 1] == '{'
  }

  predicate OpensFirstAt(s: string, n: nat) {
    OpensAt(s, n) && forall i :: 0 <= i < n ==> !OpensAt(s, i)
  }

  /** The first `${`. */
  function FindOpening(s: string): (r: Option<nat>)
    ensures r.Some? ==> OpensFirstAt(s, r.value)
    ensures r.None? ==> forall i :: 0 <= i < |s| ==> !OpensAt(s, i)
  {
    if s == "" then None
    else if OpensAt(s, 0) then Some(0)
    else
      var r := FindOpening(s[1..]);
      assert forall i :: 1 <= i < |s| ==> (OpensAt(s, i) <==> OpensAt(s[1..], i - 1));
      if r.Some? then Some(r.value + 1) else None
  }

  predicate ClosesAt(s: string, n: nat) {
    n < |s| && s[n] == '}' && '}' !in s[..n]
  }

  /** The first `}`. */
  function FindClosing(s: string): (r: Option<nat>)
    ensures r.Some? ==> ClosesAt(s, r.value)
    ensures r.None? <==> '}' !in s
  {
    if s == "" then None
    else if s[0] == '}' then Some(0)
    else
      var r := FindClosing(s[1..]);
      assert s == [s[0]] + s[1..];
      if r.Some? then
        assert s[..r.value + 1] == [s[0]] + s[1..][..r.value];
        Some(r.value + 1)
      else None
  }

  /** The result of reading on after `done` has been written. */
  function After(done: string, r: Result<string, nat>): Result<string, nat> {
    match r
    case Ok(text) => Ok(done + text)
    case Err(position) => Err(|done| + position)
  }

  /** Substitution from left to right; an error carries the position, in the text written so far, of an
      opening that is never closed. */
  function Substituted(s: string, env: Environment): Result<string, nat>
    decreases |s|
  {
    if s == "" then Ok("")
    else if !OpensAt(s, 0) then After([s[0]], Substituted(s[1..], env))
    else
      var end := FindClosing(s);
      if end.None? then Err(0)
      else
        assert end.value > 1;
        After(env(s[2..end.value]), Substituted(s[end.value + 1..], env))
  }

  lemma AfterTwice(a: string, b: string, r: Result<string, nat>)
    ensures After(a, After(b, r)) == After(a + b, r)
  {
    if r.Ok? {
      assert a + (b + r.value) == (a + b) + r.value;
    }
  }

  lemma SlicesOfRest(s: string, n: nat)
    requires 1 <= n <= |s|
    ensures s[1..][n - 1..] == s[n..] && [s[0]] + s[1..][..n - 1] == s[..n]
  {
  }

  /** Text before the first opening is copied. */
  lemma {:induction false} SkipsToOpening(s: string, n: nat, env: Environment)
    requires n <= |s| && forall i :: 0 <= i < n ==> !OpensAt(s, i)
    ensures Substituted(s, env) == After(s[..n], Substituted(s[n..], env))
    decreases n
  {
    if n == 0 {
      assert s[0..] == s;
      AfterNothing(Substituted(s, env));
    } else {
      assert !OpensAt(s, 0);
      assert forall i :: 0 <= i < n - 1 ==> (OpensAt(s[1..], i) <==> OpensAt(s, i + 1));
      SkipsToOpening(s[1..], n - 1, env);
      SlicesOfRest(s, n);
      AfterTwice([s[0]], s[1..][..n - 1], Substituted(s[n..], env));
    }
  }

  lemma AfterNothing(r: Result<string, nat>)
    ensures After("", r) == r
  {
    if r.Ok? {
      assert "" + r.value == r.value;
    }
  }

  lemma NothingToRead(s: string, env: Environment)
    requires forall i :: 0 <= i < |s| ==> !OpensAt(s, i)
    ensures Substituted(s, env) == Ok(s)
  {
    SkipsToOpening(s, |s|, env);
    assert s[..|s|] == s && s[|s|..] == "" && s + "" == s;
  }

  /** Up to and including the first variable. */
  lemma ReadsVariable(s: string, start: nat, end: nat, env: Environment)
    requires OpensFirstAt(s, start)
    requires start + 2 <= end < |s| && ClosesAt(s[start..], end - start)
    ensures Substituted(s, env) == After(s[..start] + env(s[start + 2..end]), Substituted(s[end + 1..], env))
  {
    SkipsToOpening(s, start, env);
    var rest := s[start..];
    ClosingIsFirst(rest, end - start);
    var name, unread := s[start + 2..end], s[end + 1..];
    assert rest[2..end - start] == name && rest[end - start + 1..] == unread;
    AfterTwice(s[..start], env(name), Substituted(unread, env));
  }

  lemma ReadsUnclosed(s: string, start: nat, env: Environment)
    requires OpensFirstAt(s, start)
    requires '}' !in s[start..]
    ensures Substituted(s, env) == Err(start)
  {
    SkipsToOpening(s, start, env);
  }

  lemma ClosingIsFirst(s: string, n: nat)
    requires ClosesAt(s, n)
    ensures FindClosing(s) == Some(n)
  {
    var r := FindClosing(s).value;
    assert forall i :: 0 <= i < n ==> s[i] == s[..n][i];
    assert forall i :: 0 <= i < r ==> s[i] == s[..r][i];
  }

  /** What reading on from a position of the rewritten text comes to. */
  function FromHere(content: string, pos: nat, env: Environment): Result<string, nat>
    requires pos <= |content|
  {
    After(content[..pos], Substituted(content[pos..], env))
  }

  lemma NothingLeft(content: string, pos: nat, env: Environment)
    requires pos <= |content| && forall i :: 0 <= i < |content[pos..]| ==> !OpensAt(content[pos..], i)
    ensures FromHere(content, pos, env) == Ok(content)
  {
    NothingToRead(content[pos..], env);
    assert content[..pos] + content[pos..] == content;
  }

  lemma SlicesOfUnread(content: string, pos: nat, start: nat, end: nat)
    requires pos <= start < end < |content| && start + 2 <= end
    ensures var unread := content[pos..];
            && unread[start - pos + 2..end - pos] == content[start + 2..end]
            && unread[end - pos + 1..] == content[end + 1..]
            && content[..pos] + unread[..start - pos] == content[..start]
            && unread[start - pos..] == content[start..]
  {
  }

  lemma ReadsOnAfter(done: string, value: string, rest: string, env: Environment)
    ensures FromHere(done + value + rest, |done| + |value|, env) == After(done + value, Substituted(rest, env))
  {
    var text := done + value + rest;
    assert text[..|done| + |value|] == done + value;
    assert text[|done| + |value|..] == rest;
  }

  function Rewritten(content: string, start: nat, end: nat, value: string): string
    requires start <= end < |content|
  {
    content[..start] + value + content[end + 1..]
  }

  /** Rewriting the first variable and moving past its value changes nothing of what is to come. */
  lemma RewriteInPlace(content: string, pos: nat, start: nat, end: nat, env: Environment)
    requires pos <= start && start + 2 <= end < |content|
    requires OpensFirstAt(content[pos..], start - pos)
    requires ClosesAt(content[start..], end - start)
    ensures var value := env(content[start + 2..end]);
            FromHere(content, pos, env) == FromHere(Rewritten(content, start, end, value), start + |value|, env)
  {
    var value := env(content[start + 2..end]);
    ReadsFromHere(content, pos, start, end, env);
    ReadsOnAfter(content[..start], value, content[end + 1..], env);
  }

  lemma ReadsFromHere(content: string, pos: nat, start: nat, end: nat, env: Environment)
    requires pos <= start && start + 2 <= end < |content|
    requires OpensFirstAt(content[pos..], start - pos)
    requires ClosesAt(content[start..], end - start)
    ensures FromHere(content, pos, env) ==
            After(content[..start] + env(content[start + 2..end]), Substituted(content[end + 1..], env))
  {
    SlicesOfUnread(content, pos, start, end);
    UnreadVariable(content[..pos], content[pos..], start - pos, end - pos,
                   content[..start], content[start + 2..end], content[end + 1..], env);
  }

  lemma UnreadVariable(done: string, unread: string, start: nat, end: nat, before: string, name: string, rest: string,
                       env: Environment)
    requires OpensFirstAt(unread, start)
    requires start + 2 <= end < |unread| && ClosesAt(unread[start..], end - start)
    requires before == done + unread[..start] && name == unread[start + 2..end] && rest == unread[end + 1..]
    ensures After(done, Substituted(unread, env)) == After(before + env(name), Substituted(rest, env))
  {
    ReadsVariable(unread, start, end, env);
    JoinUp(done, unread[..start], env(name), Substituted(rest, env));
  }

  lemma JoinUp(a: string, b: string, c: string, r: Result<string, nat>)
    ensures After(a, After(b + c, r)) == After(a + b + c, r)
  {
    AfterTwice(a, b + c, r);
    assert a + (b + c) == a + b + c;
  }

  lemma UnclosedHere(content: string, pos: nat, start: nat, env: Environment)
    requires pos <= start <= |content|
    requires OpensFirstAt(content[pos..], start - pos)
    requires '}' !in content[start..]
    ensures FromHere(content, pos, env) == Err(start)
  {
    assert content[pos..][start - pos..] == content[start..];
    ReadsUnclosed(content[pos..], start - pos, env);
  }

  /** substituteEnvironmentVariables: the text is rewritten in place around a moving position; what is
      left unread shrinks with every variable. */
  method SubstituteEnvironmentVariables(data: string, env: Environment) returns (r: Result<string, nat>)
    ensures r == Substituted(data, env)
  {
    var content := data;
    var pos := 0;
    AfterNothing(Substituted(data, env));
    assert content[pos..] == data;
    while pos < |content|
      invariant 0 <= pos <= |content|
      invariant Substituted(data, env) == FromHere(content, pos, env)
      decreases |content| - pos
    {
      var found := FindOpening(content[pos..]);
      if found.None? {
        break;
      }
      var start := pos + found.value;
      var closing := FindClosing(content[start..]);
      if closing.None? {
        UnclosedHere(content, pos, start, env);
        return Err(start);
      }
      var end := start + closing.value;
      assert content[start..][0] == '$' && content[start..][1] == '{';
      RewriteInPlace(content, pos, start, end, env);
      var varValue := env(content[start + 2..end]);
      content := Rewritten(content, start, end, varValue);
      pos := start + |varValue|;
    }
    NothingLeft(content, pos, env);
    return Ok(content);
  }

  // ---- What substitution means ----

  /** A text taken apart: plain characters and closed variables. */
  datatype Piece = Char(c: char) | Variable(name: string)

  function Source(p: Piece): string {
    match p
    case Char(c) => [c]
    case Variable(name) => "${" + name + "}"
  }

  function Render(pieces: seq<Piece>): string {
    if pieces == [] then "" else Source(pieces[0]) + Render(pieces[1..])
  }

  /** Every variable by its value, inserted as it is. */
  function Value(pieces: seq<Piece>, env: Environment): string {
    if pieces == [] then ""
    else (if pieces[0].Char? then [pieces[0].c] else env(pieces[0].name)) + Value(pieces[1..], env)
  }

  /** No brace closes a variable early, and no plain characters spell an opening. */
  predicate TakenApart(pieces: seq<Piece>) {
    pieces == [] ||
    (&& (pieces[0].Variable? ==> '}' !in pieces[0].name)
     && (|pieces| > 1 && pieces[0] == Char('$') ==> pieces[1] != Char('{'))
     && TakenApart(pieces[1..]))
  }

  /** An opening that nothing closes. */
  predicate Dangling(tail: string) {
    OpensAt(tail, 0) && '}' !in tail
  }

  lemma FirstClosing(name: string, rest: string)
    requires '}' !in name
    ensures FindClosing("${" + name + "}" + rest) == Some(|name| + 2)
  {
    var s := "${" + name + "}" + rest;
    assert s[|name| + 2] == '}';
    assert s[..|name| + 2] == "${" + name;
    ClosingIsFirst(s, |name| + 2);
  }

  lemma CharIsSubstituted(c: char, rest: string, env: Environment)
    requires c == '$' ==> rest == "" || rest[0] != '{'
    ensures Substituted([c] + rest, env) == After([c], Substituted(rest, env))
  {
    var s := [c] + rest;
    assert s[1..] == rest && s[0] == c;
    assert !OpensAt(s, 0);
  }

  lemma VariableIsSubstituted(name: string, rest: string, env: Environment)
    requires '}' !in name
    ensures Substituted("${" + name + "}" + rest, env) == After(env(name), Substituted(rest, env))
  {
    var s := "${" + name + "}" + rest;
    FirstClosing(name, rest);
    assert s[2..|name| + 2] == name && s[|name| + 3..] == rest;
  }

  /** One piece at a time, whatever text follows. */
  lemma PieceIsSubstituted(p: Piece, rest: string, env: Environment)
    requires p.Variable? ==> '}' !in p.name
    requires p == Char('$') ==> rest == "" || rest[0] != '{'
    ensures Substituted(Source(p) + rest, env) ==
            After(if p.Char? then [p.c] else env(p.name), Substituted(rest, env))
  {
    if p.Char? {
      CharIsSubstituted(p.c, rest, env);
    } else {
      VariableIsSubstituted(p.name, rest, env);
    }
  }

  /** What the pieces, followed by the tail, come to. */
  function Outcome(pieces: seq<Piece>, tail: string, env: Environment): Result<string, nat> {
    if tail == "" then Ok(Value(pieces, env)) else Err(|Value(pieces, env)|)
  }

  lemma OutcomeStep(pieces: seq<Piece>, tail: string, env: Environment)
    requires pieces != []
    ensures Outcome(pieces, tail, env) ==
            After(if pieces[0].Char? then [pieces[0].c] else env(pieces[0].name), Outcome(pieces[1..], tail, env))
  {
  }

  lemma RenderStep(pieces: seq<Piece>, tail: string)
    requires pieces != []
    ensures Render(pieces) + tail == Source(pieces[0]) + (Render(pieces[1..]) + tail)
    ensures |pieces| > 1 ==> (Render(pieces[1..]) + tail)[0] == Source(pieces[1])[0]
  {
    ConcatAssociative(Source(pieces[0]), Render(pieces[1..]), tail);
    if |pieces| > 1 {
      RenderStart(pieces[1..]);
    }
  }

  lemma RenderStart(pieces: seq<Piece>)
    requires pieces != []
    ensures Render(pieces) != "" && Render(pieces)[0] == Source(pieces[0])[0]
  {
  }

  /** A text that falls apart is substituted piece by piece: values are never read again. */
  lemma {:induction false} PiecesAreSubstituted(pieces: seq<Piece>, tail: string, env: Environment)
    requires TakenApart(pieces) && (tail == "" || Dangling(tail))
    ensures Substituted(Render(pieces) + tail, env) == Outcome(pieces, tail, env)
    decreases |pieces|
  {
    if pieces == [] {
      assert Render(pieces) + tail == tail;
    } else {
      RenderStep(pieces, tail);
      PieceIsSubstituted(pieces[0], Render(pieces[1..]) + tail, env);
      PiecesAreSubstituted(pieces[1..], tail, env);
      OutcomeStep(pieces, tail, env);
    }
  }

  lemma CharInFront(s: string, pieces: seq<Piece>, tail: string)
    requires s != "" && !OpensAt(s, 0) && s[1..] == Render(pieces) + tail && TakenApart(pieces)
    ensures TakenApart([Char(s[0])] + pieces) && s == Render([Char(s[0])] + pieces) + tail
  {
    var longer := [Char(s[0])] + pieces;
    assert longer[1..] == pieces;
    RenderStep(longer, tail);
    assert pieces != [] ==> s[1] == Source(pieces[0])[0];
  }

  lemma TakeVariable(s: string, end: nat)
    requires OpensAt(s, 0) && ClosesAt(s, end)
    ensures end >= 2 && '}' !in s[2..end] && s == "${" + s[2..end] + "}" + s[end + 1..]
  {
    assert s[..end] == s[..2] + s[2..end];
  }

  lemma VariableInFront(s: string, end: nat, pieces: seq<Piece>, tail: string)
    requires OpensAt(s, 0) && ClosesAt(s, end) && s[end + 1..] == Render(pieces) + tail && TakenApart(pieces)
    ensures end >= 2
    ensures TakenApart([Variable(s[2..end])] + pieces) && s == Render([Variable(s[2..end])] + pieces) + tail
  {
    TakeVariable(s, end);
    var longer := [Variable(s[2..end])] + pieces;
    assert longer[1..] == pieces;
    RenderStep(longer, tail);
  }

  /** Every text falls apart, completely or up to a dangling opening. */
  lemma {:induction false} EveryTextFallsApart(s: string) returns (pieces: seq<Piece>, tail: string)
    ensures TakenApart(pieces) && (tail == "" || Dangling(tail))
    ensures s == Render(pieces) + tail
    decreases |s|
  {
    if s == "" {
      return [], "";
    }
    var rest;
    if !OpensAt(s, 0) {
      rest, tail := EveryTextFallsApart(s[1..]);
      CharInFront(s, rest, tail);
      return [Char(s[0])] + rest, tail;
    }
    var end := FindClosing(s);
    if end.None? {
      return [], s;
    }
    rest, tail := EveryTextFallsApart(s[end.value + 1..]);
    VariableInFront(s, end.value, rest, tail);
    return [Variable(s[2..end.value])] + rest, tail;
  }

  ghost predicate Unclosed(s: string) {
    exists pieces, tail :: TakenApart(pieces) && Dangling(tail) && s == Render(pieces) + tail
  }

  /** Substitution fails exactly when some `${` of the text not yet consumed has no later `}`. */
  lemma FailsExactlyWhenUnclosed(s: string, env: Environment)
    ensures Substituted(s, env).Err? <==> Unclosed(s)
  {
    var pieces, tail := EveryTextFallsApart(s);
    PiecesAreSubstituted(pieces, tail, env);
    if Unclosed(s) {
      var pieces', tail' :| TakenApart(pieces') && Dangling(tail') && s == Render(pieces') + tail';
      PiecesAreSubstituted(pieces', tail', env);
    }
  }
}
