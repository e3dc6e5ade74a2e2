/** The vocabulary of the generated statements, and what a statement made of it looks like to a database
    that reads placeholders by position or by number. */
module SqlText {
  import opened Numerals
  import opened Like
  import opened Placeholders

  /** Fixed text of a statement: no placeholder, no dollar sign, and nothing that would extend a number
      in front of it. */
  type Plain = s: string | '?' !in s && '$' !in s && (s != "" ==> !IsDigit(s[0])) witness ""

  datatype Alias = CONSENT | CAR | CAR_DS | PCM | P | PCM2 | PEM | E | M | LATEST

  datatype Name =
    | CONSENT_ID | ORG_ID | GROUP_ID | CONSENT_TYPE | CURRENT_STATUS | USER_ID | AUTH_TYPE
    | CREATED_TIME | UPDATED_TIME | EXPIRATION_TIME | CONSENT_FREQUENCY | RECURRING_INDICATOR | VALIDITY_DURATION
    | PURPOSE_VERSION_ID | ELEMENT_VERSION_ID | VERSION_ID | NAME | NAMESPACE | VERSION
    | ID | TYPE | DISPLAY_NAME | DESCRIPTION | ELEMENT_SCHEMA | MAX_VERSION

  datatype Keyword =
    | EQUALS | AT_LEAST | AT_MOST | AND | COMMA | LIST_COMMA | IN_OPEN | CLOSE | LIKE | WHERE | SPACE
    | ON | JOIN | INNER_JOIN
    | PURPOSE | ELEMENT | MAPPING | CONSENT_MAPPING | AUTH_RESOURCE
    | EXISTS | COUNT | AS_COUNT | SELECT | FROM_DISTINCT | FROM_CONSENT | ORDER_BY | LIMIT | OFFSET
    | ASC | DESC | CASE_WHEN | NULL_LAST | NULL_FIRST
    | FROM | MAX_OF | GROUP_BY_ID | COUNT_ALL | AS_FILTERED | LIST_ORDER

  datatype Word = Table(a: Alias) | Field(b: Alias, n: Name) | Bare(m: Name) | Kw(k: Keyword) | EscapeWord(d: Dialect)

  function AliasText(a: Alias): (r: Plain)
    ensures r != ""
  {
    match a
    case CONSENT => "CONSENT"
    case CAR => "car"
    case CAR_DS => "car_ds"
    case PCM => "pcm"
    case P => "p"
    case PCM2 => "pcm2"
    case PEM => "pem"
    case E => "e"
    case M => "m"
    case LATEST => "latest"
  }

  function VersionName(n: Name): Plain {
    match n
    case ID => "ID"
    case TYPE => "TYPE"
    case DISPLAY_NAME => "DISPLAY_NAME"
    case DESCRIPTION => "DESCRIPTION"
    case ELEMENT_SCHEMA => "ELEMENT_SCHEMA"
    case MAX_VERSION => "MAX_VERSION"
    case _ => "VERSION"
  }

  function CatalogName(n: Name): Plain {
    match n
    case PURPOSE_VERSION_ID => "PURPOSE_VERSION_ID"
    case ELEMENT_VERSION_ID => "ELEMENT_VERSION_ID"
    case VERSION_ID => "VERSION_ID"
    case NAME => "NAME"
    case NAMESPACE => "NAMESPACE"
    case _ => VersionName(n)
  }

  function StateName(n: Name): Plain {
    match n
    case CONSENT_ID => "CONSENT_ID"
    case ORG_ID => "ORG_ID"
    case GROUP_ID => "GROUP_ID"
    case CONSENT_TYPE => "CONSENT_TYPE"
    case CURRENT_STATUS => "CURRENT_STATUS"
    case USER_ID => "USER_ID"
    case AUTH_TYPE => "AUTH_TYPE"
    case CREATED_TIME => "CREATED_TIME"
    case UPDATED_TIME => "UPDATED_TIME"
    case _ => CatalogName(n)
  }

  function NameText(n: Name): Plain {
    match n
    case EXPIRATION_TIME => "EXPIRATION_TIME"
    case CONSENT_FREQUENCY => "CONSENT_FREQUENCY"
    case RECURRING_INDICATOR => "RECURRING_INDICATOR"
    case VALIDITY_DURATION => "DATA_ACCESS" + "_VALIDITY_DURATION"
    case _ => StateName(n)
  }

  function TableText(k: Keyword): Plain {
    match k
    case PURPOSE => "PURPOSE"
    case ELEMENT => "ELEMENT"
    case MAPPING => "PURPOSE" + "_ELEMENT_MAPPING"
    case CONSENT_MAPPING => "PURPOSE" + "_CONSENT_MAPPING"
    case _ => "CONSENT" + "_AUTH_RESOURCE"
  }

  function ListText(k: Keyword): Plain {
    match k
    case GROUP_BY_ID => " GROUP BY ID)" + " AS latest ON "
    case COUNT_ALL => "SELECT COUNT(*)" + " AS cnt FROM ("
    case AS_FILTERED => ") AS filtered"
    case LIST_ORDER => " ORDER BY "
    case _ => LatestText(k)
  }

  function LatestText(k: Keyword): Plain {
    match k
    case MAX_OF => " INNER JOIN " + "(SELECT ID, MAX(" + "VERSION) AS " + "MAX_VERSION FROM "
    case _ => TableText(k)
  }

  function HeadText(k: Keyword): Plain {
    match k
    case EXISTS => "EXISTS" + " (SELECT 1 FROM "
    case COUNT => "SELECT " + "COUNT(DISTINCT "
    case AS_COUNT => ") AS count" + " FROM CONSENT"
    case FROM_DISTINCT => " FROM (" + "SELECT DISTINCT "
    case _ => ListText(k)
  }

  function OrderText(k: Keyword): Plain {
    match k
    case ORDER_BY => ") CONSENT" + " ORDER BY "
    case NULL_LAST => " IS NULL THEN 1" + " ELSE 0 END ASC"
    case NULL_FIRST => " IS NULL THEN 0" + " ELSE 1 END ASC"
    case _ => HeadText(k)
  }

  function ClauseText(k: Keyword): Plain {
    match k
    case JOIN => " JOIN "
    case INNER_JOIN => " INNER JOIN "
    case SELECT => "SELECT "
    case FROM_CONSENT => " FROM CONSENT"
    case LIMIT => " LIMIT "
    case OFFSET => " OFFSET "
    case ASC => " ASC"
    case DESC => " DESC"
    case CASE_WHEN => "CASE WHEN "
    case _ => OrderText(k)
  }

  function KeywordText(k: Keyword): Plain {
    match k
    case EQUALS => " = "
    case AT_LEAST => " >= "
    case AT_MOST => " <= "
    case AND => " AND "
    case COMMA => ", "
    case LIST_COMMA => ","
    case IN_OPEN => " IN ("
    case CLOSE => ")"
    case LIKE => " LIKE "
    case WHERE => " WHERE "
    case SPACE => " "
    case ON => " ON "
    case FROM => " FROM "
    case _ => ClauseText(k)
  }

  function Spelling(w: Word): Plain {
    match w
    case Table(a) => AliasText(a)
    case Field(a, n) => AliasText(a) + "." + NameText(n)
    case Bare(n) => NameText(n)
    case Kw(k) => KeywordText(k)
    case EscapeWord(d) => EscapeClause(d)
  }

  /** A statement: words and placeholders. */
  datatype Sql = W(word: Word) | Mark

  function TextOf(t: Sql): string {
    if t.Mark? then "?" else Spelling(t.word)
  }

  function Render(tokens: seq<Sql>): string {
    if tokens == [] then "" else TextOf(tokens[0]) + Render(tokens[1..])
  }

  function MarksIn(tokens: seq<Sql>): nat {
    if tokens == [] then 0 else (if tokens[0].Mark? then 1 else 0) + MarksIn(tokens[1..])
  }

  /** Text whose placeholders Postgres will read where they stand: `n` of them, none running into a
      digit, and no dollar sign of its own. */
  predicate Fits(s: string, n: nat) {
    Holes(s) == n && '$' !in s && Separated(s) && (s != "" ==> !IsDigit(s[0]))
  }

  lemma FitsConcat(a: string, m: nat, b: string, n: nat)
    requires Fits(a, m) && Fits(b, n)
    ensures Fits(a + b, m + n)
  {
    HolesConcat(a, b);
    forall i | 0 <= i < |a + b| - 1 && (a + b)[i] == '?'
      ensures !IsDigit((a + b)[i + 1])
    {
      if i + 1 < |a| {
        assert a[i] == '?';
      } else if i + 1 == |a| {
        assert (a + b)[i + 1] == b[0];
      } else {
        assert b[i - |a|] == '?';
      }
    }
  }

  lemma PlainFits(s: Plain)
    ensures Fits(s, 0)
  {
    HolesFree(s);
  }

  lemma TokenFits(t: Sql)
    ensures Fits(TextOf(t), if t.Mark? then 1 else 0)
  {
    if t.Mark? {
      assert "?"[1..] == "";
    } else {
      PlainFits(Spelling(t.word));
    }
  }

  /** The rendered statement has the placeholders of its tokens. */
  lemma {:induction false} RenderFits(tokens: seq<Sql>)
    ensures Fits(Render(tokens), MarksIn(tokens))
    decreases |tokens|
  {
    if tokens != [] {
      TokenFits(tokens[0]);
      RenderFits(tokens[1..]);
      FitsConcat(TextOf(tokens[0]), if tokens[0].Mark? then 1 else 0, Render(tokens[1..]), MarksIn(tokens[1..]));
    }
  }

  lemma {:induction false} RenderConcat(a: seq<Sql>, b: seq<Sql>)
    ensures Render(a + b) == Render(a) + Render(b)
    decreases |a|
  {
    if a == [] {
      assert a + b == b;
    } else {
      assert (a + b)[1..] == a[1..] + b;
      RenderConcat(a[1..], b);
    }
  }

  lemma {:induction false} MarksConcat(a: seq<Sql>, b: seq<Sql>)
    ensures MarksIn(a + b) == MarksIn(a) + MarksIn(b)
    decreases |a|
  {
    if a == [] {
      assert a + b == b;
    } else {
      assert (a + b)[1..] == a[1..] + b;
      MarksConcat(a[1..], b);
    }
  }

  lemma {:induction false} MarksFree(tokens: seq<Sql>)
    requires Mark !in tokens
    ensures MarksIn(tokens) == 0
    decreases |tokens|
  {
    if tokens != [] {
      assert tokens == [tokens[0]] + tokens[1..];
      MarksFree(tokens[1..]);
    }
  }

  /** However a statement is put together, both dialects read its placeholders alike. */
  lemma TokensBindAlike(tokens: seq<Sql>)
    ensures var sql := Render(tokens);
            Holes(sql) == MarksIn(tokens) && ReadNumbered(Numbered(sql, 1)) == ReadPositional(sql, 1)
  {
    RenderFits(tokens);
    DialectsBindAlike(Render(tokens), 1);
  }
}
