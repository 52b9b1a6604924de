/**
 * Rewriting of query placeholders.  The drivers share one regular expression: a token (%d, %s,
 * %f, %u, %ld, %lf, %lu; for PostgreSQL also ?) with no quote directly before or behind it.  They
 * replace its leftmost match until there is none.
 */
module Placeholders {
  import opened Optional
  import Decimal

  /** The PostgreSQL driver takes '?' for a token; the MySQL and SQLite drivers leave it alone. */
  datatype Dialect = Postgres | QuestionMarks

  /** The length of the token at i, 0 if there is none. */
  function TokenAt(d: Dialect, s: string, i: nat): (l: nat)
    requires i <= |s|
    ensures i + l <= |s|
  {
    if i == |s| then 0
    else if s[i] == '%' then
      if i + 1 < |s| && s[i + 1] in {'d', 's', 'f', 'u'} then 2
      else if i + 2 < |s| && s[i + 1] == 'l' && s[i + 2] in {'d', 'f', 'u'} then 3
      else 0
    else if d.Postgres? && s[i] == '?' then 1
    else 0
  }

  /** The regular expression matches at i. */
  predicate Matches(d: Dialect, s: string, i: nat)
    requires i <= |s|
  {
    var l := TokenAt(d, s, i);
    && l > 0
    && (i > 0 ==> s[i - 1] != '\'')
    && (i + l < |s| ==> s[i + l] != '\'')
  }

  // ---- what the regular expression matches, token by token

  function Tokens(d: Dialect): set<string> {
    {"%d", "%s", "%f", "%u", "%ld", "%lf", "%lu"} + if d.Postgres? then {"?"} else {}
  }

  /** The token stands at i. */
  predicate StandsAt(token: string, s: string, i: nat) {
    i + |token| <= |s| && s[i..i + |token|] == token
  }

  /** No quote directly before i, none directly behind j. */
  predicate QuoteFree(s: string, i: nat, j: nat)
    requires i <= j <= |s|
  {
    (i > 0 ==> s[i - 1] != '\'') && (j < |s| ==> s[j] != '\'')
  }

  lemma TokensSpelled(d: Dialect, c: char)
    ensures c in {'d', 's', 'f', 'u'} ==> ['%', c] in Tokens(d)
    ensures c in {'d', 'f', 'u'} ==> ['%', 'l', c] in Tokens(d)
    ensures d.Postgres? ==> "?" in Tokens(d)
  {
    assert c == 'd' ==> ['%', c] == "%d" && ['%', 'l', c] == "%ld";
    assert c == 'f' ==> ['%', c] == "%f" && ['%', 'l', c] == "%lf";
    assert c == 'u' ==> ['%', c] == "%u" && ['%', 'l', c] == "%lu";
    assert c == 's' ==> ['%', c] == "%s";
  }

  /** Where TokenAt finds a token, one stands. */
  lemma TokenFound(d: Dialect, s: string, i: nat)
    requires i <= |s|
    ensures var l := TokenAt(d, s, i); l > 0 ==> s[i..i + l] in Tokens(d)
  {
    var l := TokenAt(d, s, i);
    if l > 0 {
      TokensSpelled(d, s[i + l - 1]);
      hide Tokens;
      assert s[i..i + l] == if s[i] == '?' then "?" else if l == 2 then ['%', s[i + 1]] else ['%', 'l', s[i + 2]];
    }
  }

  /** Where a token stands, TokenAt finds it. */
  lemma TokenStands(d: Dialect, s: string, i: nat, token: string)
    requires i <= |s| && token in Tokens(d) && StandsAt(token, s, i)
    ensures TokenAt(d, s, i) == |token| > 0
  {
    assert token in {"%d", "%s", "%f", "%u", "%ld", "%lf", "%lu", "?"};
    assert s[i] == token[0];
    assert |token| > 1 ==> s[i + 1] == token[1];
    assert |token| > 2 ==> s[i + 2] == token[2];
  }

  /** It matches exactly where one of the tokens stands with no quote directly before or behind it. */
  lemma MatchesExactly(d: Dialect, s: string, i: nat)
    requires i <= |s|
    ensures Matches(d, s, i) <==>
              exists token :: token in Tokens(d) && StandsAt(token, s, i) && QuoteFree(s, i, i + |token|)
  {
    hide TokenAt, Tokens;
    if Matches(d, s, i) {
      var token := s[i..i + TokenAt(d, s, i)];
      TokenFound(d, s, i);
      assert StandsAt(token, s, i) && QuoteFree(s, i, i + |token|);
    }
    forall token | token in Tokens(d) && StandsAt(token, s, i) && QuoteFree(s, i, i + |token|)
      ensures Matches(d, s, i)
    {
      TokenStands(d, s, i, token);
    }
  }

  /** The leftmost match from i on, or the end. */
  function Leftmost(d: Dialect, s: string, i: nat): (m: nat)
    requires i <= |s|
    ensures i <= m <= |s| && (m < |s| ==> Matches(d, s, m))
    ensures forall p :: i <= p < m ==> !Matches(d, s, p)
    decreases |s| - i
  {
    if i == |s| || Matches(d, s, i) then i else Leftmost(d, s, i + 1)
  }

  // ---- what a token is replaced by

  const TYPEMAP: seq<(string, string)> :=
    [("%d", "int"), ("%u", "int"), ("%lu", "int"), ("%ld", "int"), ("%f", "float"), ("%lf", "float"), ("%s", "text")]

  function TypeFrom(i: nat, token: string): Option<string>
    requires i <= |TYPEMAP|
    decreases |TYPEMAP| - i
  {
    if i == |TYPEMAP| then None else if TYPEMAP[i].0 == token then Some(TYPEMAP[i].1) else TypeFrom(i + 1, token)
  }

  /** The n-th parameter, cast to the type its token names. */
  function Parameter(token: string, n: nat): string {
    var t := TypeFrom(0, token);
    "$" + Decimal.Digits(n) + if t.Some? then "::" + t.value else ""
  }

  /** The last character of a matched token decides the cast; a question mark gets none. */
  lemma {:induction false} TokenDecidesCast(s: string, i: nat, n: nat)
    requires i < |s| && TokenAt(Postgres, s, i) > 0
    ensures var token := s[i..i + TokenAt(Postgres, s, i)];
            var last := token[|token| - 1];
            Parameter(token, n) ==
            "$" + Decimal.Digits(n) + (if last == '?' then "" else if last == 's' then "::text"
                                       else if last == 'f' then "::float" else "::int")
  {
    Casts();
    hide TypeFrom;
    var token := s[i..i + TokenAt(Postgres, s, i)];
    assert token == if s[i] == '?' then "?" else if |token| == 2 then ['%', s[i + 1]] else ['%', 'l', s[i + 2]];
  }

  /** What the table says of each token. */
  lemma Casts()
    ensures forall token :: token in {"%d", "%u", "%ld", "%lu"} ==> TypeFrom(0, token) == Some("int")
    ensures forall token :: token in {"%f", "%lf"} ==> TypeFrom(0, token) == Some("float")
    ensures TypeFrom(0, "%s") == Some("text") && TypeFrom(0, "?") == None
  {
    assert TypeFrom(7, "?") == None && TypeFrom(6, "%s") == Some("text");
    assert TypeFrom(3, "?") == TypeFrom(5, "?") == TypeFrom(7, "?");
    assert TypeFrom(2, "%s") == TypeFrom(4, "%s") == TypeFrom(6, "%s");
  }

  function Replacement(d: Dialect, token: string, n: nat): string {
    if d.Postgres? then Parameter(token, n) else "?"
  }

  /** One pass from left to right: the matches from i on are replaced by what `f` makes of their
      token and number, counting on from n. */
  function OnePass(d: Dialect, s: string, i: nat, n: nat, f: (string, nat) -> string): string
    requires i <= |s|
    decreases |s| - i
  {
    if i == |s| then []
    else if Matches(d, s, i) then
      var l := TokenAt(d, s, i);
      f(s[i..i + l], n + 1) + OnePass(d, s, i + l, n + 1, f)
    else [s[i]] + OnePass(d, s, i + 1, n, f)
  }

  /** How many matches there are from i on. */
  function Count(d: Dialect, s: string, i: nat): nat
    requires i <= |s|
    decreases |s| - i
  {
    if i == |s| then 0 else (if Matches(d, s, i) then 1 else 0) + Count(d, s, i + 1)
  }

  function Replacer(d: Dialect): (string, nat) -> string {
    (token: string, n: nat) => Replacement(d, token, n)
  }

  function Rewritten(d: Dialect, s: string): string {
    OnePass(d, s, 0, 0, Replacer(d))
  }

  ghost predicate Clean(d: Dialect, s: string, k: nat)
    requires k <= |s|
  {
    forall p :: 0 <= p < k ==> !Matches(d, s, p)
  }

  // ---- replacing a match disturbs no other

  /** Text that neither contains a token nor completes one begun before it, nor quotes what is next to it. */
  predicate Inert(d: Dialect, r: string) {
    && r != []
    && r[0] !in {'d', 's', 'f', 'u', 'l', '\''} && r[|r| - 1] != '\''
    && '%' !in r && (d.Postgres? ==> '?' !in r)
  }

  lemma {:induction false} ReplacementInert(d: Dialect, token: string, n: nat)
    ensures Inert(d, Replacement(d, token, n))
  {
    var t := TypeFrom(0, token);
    assert t.Some? ==> t.value in {"int", "float", "text"};
    var digits := Decimal.Digits(n);
    assert '%' !in digits && '?' !in digits;
    if t.Some? {
      assert Parameter(token, n) == "$" + digits + ("::" + t.value);
    } else {
      assert Parameter(token, n) == "$" + digits;
    }
  }

  /** Left of the replaced match and inside its replacement nothing matches. */
  lemma {:induction false} ReplacedClean(d: Dialect, s: string, m: nat, r: string)
    requires m < |s| && Matches(d, s, m) && Clean(d, s, m) && Inert(d, r)
    ensures Clean(d, ReplaceAt(d, s, m, r), m + |r|)
  {
    var s' := s[..m] + r + s[m + TokenAt(d, s, m)..];
    forall p | 0 <= p < m + |r| ensures !Matches(d, s', p) {
      if p < m {
        ReplacedCleanBefore(d, s, m, r, p);
      } else {
        assert s'[p] == r[p - m] && r[p - m] in r;
      }
    }
  }

  lemma {:induction false} ReplacedCleanBefore(d: Dialect, s: string, m: nat, r: string, p: nat)
    requires p < m < |s| && Matches(d, s, m) && !Matches(d, s, p) && Inert(d, r)
    ensures !Matches(d, s[..m] + r + s[m + TokenAt(d, s, m)..], p)
  {
    var s' := s[..m] + r + s[m + TokenAt(d, s, m)..];
    assert forall q :: 0 <= q < m ==> s'[q] == s[q];
    assert s'[m] == r[0];
    var l := TokenAt(d, s', p);
    if l > 0 && p + l <= m {
      assert TokenAt(d, s, p) == l;
    }
  }

  /** Whether something matches at i depends on what starts there and on the character before it. */
  lemma {:induction false} MatchesBySuffix(d: Dialect, s: string, i: nat)
    requires i <= |s|
    ensures TokenAt(d, s, i) == TokenAt(d, s[i..], 0)
    ensures Matches(d, s, i) <==> Matches(d, s[i..], 0) && (i > 0 ==> s[i - 1] != '\'')
  {
    var t := s[i..];
    assert |t| > 0 ==> t[0] == s[i];
    assert |t| > 1 ==> t[1] == s[i + 1];
    assert |t| > 2 ==> t[2] == s[i + 2];
    var l := TokenAt(d, s, i);
    assert i + l < |s| ==> t[l] == s[i + l];
  }

  /** Nothing to the left of the rest of the query quotes what follows. */
  ghost predicate Unquoted(done: string, query: string, i: nat) {
    && i <= |query|
    && (done != [] ==> done[|done| - 1] != '\'')
    && (i > 0 ==> query[i - 1] != '\'')
  }

  /** Putting other text in front of the rest of a query does not change what matches in the rest. */
  lemma {:induction false} SameMatches(d: Dialect, done: string, query: string, i: nat, j: nat)
    requires Unquoted(done, query, i) && i <= j <= |query|
    ensures var cur, p := done + query[i..], |done| + (j - i);
            TokenAt(d, cur, p) == TokenAt(d, query, j) && Matches(d, cur, p) == Matches(d, query, j)
  {
    hide TokenAt, Matches;
    var cur, p := done + query[i..], |done| + (j - i);
    MatchesBySuffix(d, cur, p);
    MatchesBySuffix(d, query, j);
    assert cur[p..] == query[j..];
    assert p > 0 && j > i ==> cur[p - 1] == query[j - 1];
  }

  lemma {:induction false} OnePassKeeps(d: Dialect, s: string, i: nat, n: nat, f: (string, nat) -> string)
    requires i < |s| && !Matches(d, s, i)
    ensures OnePass(d, s, i, n, f) == [s[i]] + OnePass(d, s, i + 1, n, f)
  {
  }

  lemma {:induction false} OnePassSkips(d: Dialect, s: string, i: nat, j: nat, n: nat, f: (string, nat) -> string)
    requires i <= j <= |s| && forall p :: i <= p < j ==> !Matches(d, s, p)
    ensures OnePass(d, s, i, n, f) == s[i..j] + OnePass(d, s, j, n, f)
    decreases j - i
  {
    hide TokenAt, Matches, OnePass;
    if i < j {
      OnePassSkips(d, s, i + 1, j, n, f);
      OnePassKeeps(d, s, i, n, f);
      assert s[i..j] == [s[i]] + s[i + 1..j];
    } else {
      assert s[i..j] == [];
    }
  }

  lemma {:induction false} CountSkips(d: Dialect, s: string, i: nat, j: nat)
    requires i <= j <= |s| && forall p :: i <= p < j ==> !Matches(d, s, p)
    ensures Count(d, s, i) == Count(d, s, j)
    decreases j - i
  {
    hide TokenAt, Matches;
    if i < j {
      CountSkips(d, s, i + 1, j);
    }
  }

  /** A match covers no other. */
  lemma {:induction false} MatchesApart(d: Dialect, s: string, m: nat)
    requires m < |s| && Matches(d, s, m)
    ensures Count(d, s, m) == 1 + Count(d, s, m + TokenAt(d, s, m))
  {
    CountSkips(d, s, m + 1, m + TokenAt(d, s, m));
  }

  lemma {:induction false} SameCount(d: Dialect, done: string, query: string, i: nat, j: nat)
    requires Unquoted(done, query, i) && i <= j <= |query|
    ensures Count(d, done + query[i..], |done| + (j - i)) == Count(d, query, j)
    decreases |query| - j
  {
    hide TokenAt, Matches;
    SameMatches(d, done, query, i, j);
    if j < |query| {
      SameCount(d, done, query, i, j + 1);
    }
  }

  // ---- the loop

  /** `done + query[i..]` is the current text: `done` is clean and n matches have gone into it. */
  ghost predicate Partway(d: Dialect, query: string, done: string, i: nat, n: nat) {
    && Unquoted(done, query, i)
    && Clean(d, done + query[i..], |done|)
    && done + OnePass(d, query, i, n, Replacer(d)) == Rewritten(d, query)
  }

  /** `cur` with its match at m replaced. */
  function ReplaceAt(d: Dialect, cur: string, m: nat, r: string): string
    requires m <= |cur|
  {
    cur[..m] + r + cur[m + TokenAt(d, cur, m)..]
  }

  /** The leftmost match of the current text is the leftmost one of the rest of the query. */
  lemma {:induction false} LeftmostInQuery(d: Dialect, query: string, done: string, i: nat)
    requires Unquoted(done, query, i) && Clean(d, done + query[i..], |done|)
    ensures Leftmost(d, done + query[i..], 0) == |done| + (Leftmost(d, query, i) - i)
  {
    hide TokenAt, Matches;
    var cur, j := done + query[i..], Leftmost(d, query, i);
    var m := |done| + (j - i);
    forall p | 0 <= p < m ensures !Matches(d, cur, p) {
      if p >= |done| {
        SameMatches(d, done, query, i, i + (p - |done|));
      }
    }
    SameMatches(d, done, query, i, j);
  }

  /** One replacement of the leftmost match, in terms of the query. */
  lemma {:induction false} ReplaceInQuery(d: Dialect, query: string, done: string, i: nat, r: string)
    requires Unquoted(done, query, i) && Clean(d, done + query[i..], |done|) && Leftmost(d, query, i) < |query|
    ensures var cur, j := done + query[i..], Leftmost(d, query, i);
            var m, l := Leftmost(d, cur, 0), TokenAt(d, query, j);
            && m < |cur| && TokenAt(d, cur, m) == l && cur[m..m + l] == query[j..j + l]
            && cur[..m] == done + query[i..j]
            && ReplaceAt(d, cur, m, r) == (done + query[i..j] + r) + query[j + l..]
  {
    hide TokenAt, Matches, Leftmost;
    var cur, j := done + query[i..], Leftmost(d, query, i);
    var m, l := |done| + (j - i), TokenAt(d, query, j);
    LeftmostInQuery(d, query, done, i);
    SameMatches(d, done, query, i, j);
    assert cur[..m] == done + query[i..j];
    assert cur[m..m + l] == query[j..j + l];
    assert cur[m + l..] == query[j + l..];
  }

  lemma {:induction false} TokenEnd(d: Dialect, s: string, i: nat)
    requires i < |s| && Matches(d, s, i)
    ensures TokenAt(d, s, i) > 0 && s[i + TokenAt(d, s, i) - 1] != '\''
  {
  }

  lemma {:induction false} InertEnds(d: Dialect, r: string)
    requires Inert(d, r)
    ensures r != [] && r[|r| - 1] != '\''
  {
  }

  lemma {:induction false} OnePassReplaces(d: Dialect, s: string, i: nat, n: nat)
    requires i < |s| && Matches(d, s, i)
    ensures OnePass(d, s, i, n, Replacer(d))
         == Replacement(d, s[i..i + TokenAt(d, s, i)], n + 1) + OnePass(d, s, i + TokenAt(d, s, i), n + 1, Replacer(d))
  {
  }

  lemma {:induction false} OnePassThrough(d: Dialect, query: string, done: string, i: nat, n: nat)
    requires i <= |query| && Leftmost(d, query, i) < |query|
    ensures var j := Leftmost(d, query, i);
            var next := j + TokenAt(d, query, j);
            done + OnePass(d, query, i, n, Replacer(d)) ==
            done + query[i..j] + Replacement(d, query[j..next], n + 1) + OnePass(d, query, next, n + 1, Replacer(d))
  {
    hide TokenAt, Matches, Replacement, OnePass;
    var j := Leftmost(d, query, i);
    OnePassSkips(d, query, i, j, n, Replacer(d));
    OnePassReplaces(d, query, j, n);
  }

  lemma {:induction false} StillClean(d: Dialect, query: string, done: string, i: nat, r: string)
    requires Unquoted(done, query, i) && Clean(d, done + query[i..], |done|)
    requires Leftmost(d, query, i) < |query| && Inert(d, r)
    ensures var j := Leftmost(d, query, i);
            var next, done' := j + TokenAt(d, query, j), done + query[i..j] + r;
            Unquoted(done', query, next) && Clean(d, done' + query[next..], |done'|)
  {
    hide TokenAt, Matches, Inert;
    var cur, j := done + query[i..], Leftmost(d, query, i);
    ReplaceInQuery(d, query, done, i, r);
    ReplacedClean(d, cur, Leftmost(d, cur, 0), r);
    InertEnds(d, r);
    TokenEnd(d, query, j);
  }

  /** One replacement keeps on the way, and leaves exactly one match less: it neither makes nor
      breaks another. */
  lemma {:induction false} ReplaceLeftmost(d: Dialect, query: string, done: string, i: nat, n: nat)
    requires Partway(d, query, done, i, n) && Leftmost(d, query, i) < |query|
    ensures var j := Leftmost(d, query, i);
            var l := TokenAt(d, query, j);
            var done' := done + query[i..j] + Replacement(d, query[j..j + l], n + 1);
            && Partway(d, query, done', j + l, n + 1)
            && Count(d, done' + query[j + l..], 0) == Count(d, done + query[i..], 0) - 1
  {
    hide TokenAt, Matches, Inert, Replacement, OnePass, Rewritten, Count;
    var j := Leftmost(d, query, i);
    var l := TokenAt(d, query, j);
    var r := Replacement(d, query[j..j + l], n + 1);
    ReplacementInert(d, query[j..j + l], n + 1);
    StillClean(d, query, done, i, r);
    OnePassThrough(d, query, done, i, n);
    OneLess(d, query, done, i, done + query[i..j] + r, j);
  }

  lemma {:induction false} OneLess(d: Dialect, query: string, done: string, i: nat, done': string, j: nat)
    requires Unquoted(done, query, i) && Clean(d, done + query[i..], |done|)
    requires i <= j == Leftmost(d, query, i) < |query|
    requires var rest := j + TokenAt(d, query, j);
             Unquoted(done', query, rest) && Clean(d, done' + query[rest..], |done'|)
    ensures Count(d, done' + query[j + TokenAt(d, query, j)..], 0) == Count(d, done + query[i..], 0) - 1
  {
    hide TokenAt, Matches;
    var rest := j + TokenAt(d, query, j);
    CountSkips(d, done + query[i..], 0, |done|);
    SameCount(d, done, query, i, i);
    CountSkips(d, query, i, j);
    MatchesApart(d, query, j);
    CountSkips(d, done' + query[rest..], 0, |done'|);
    SameCount(d, done', query, rest, rest);
  }

  lemma {:induction false} NothingLeft(d: Dialect, s: string, i: nat, n: nat, f: (string, nat) -> string)
    requires i <= |s| && Clean(d, s, |s|)
    ensures OnePass(d, s, i, n, f) == s[i..]
  {
    OnePassSkips(d, s, i, |s|, n, f);
  }

  /** A second run changes nothing. */
  lemma {:induction false} CleanIsFixed(d: Dialect, s: string)
    requires Clean(d, s, |s|)
    ensures Rewritten(d, s) == s
  {
    NothingLeft(d, s, 0, 0, Replacer(d));
  }

  lemma {:induction false} OnePassMatch(d: Dialect, s: string, i: nat, n: nat, f: (string, nat) -> string)
    requires i < |s| && Matches(d, s, i)
    ensures var l := TokenAt(d, s, i); OnePass(d, s, i, n, f) == f(s[i..i + l], n + 1) + OnePass(d, s, i + l, n + 1, f)
  {
  }

  lemma {:induction false} OnePassEnds(d: Dialect, s: string, n: nat, f: (string, nat) -> string)
    ensures OnePass(d, s, |s|, n, f) == [] == s[|s|..] && Count(d, s, |s|) == 0
  {
  }

  /** Put every token back and the query is itself: nothing but the matches is touched. */
  lemma {:induction false} TokensPutBack(d: Dialect, s: string, i: nat, n: nat)
    requires i <= |s|
    ensures OnePass(d, s, i, n, (token: string, k: nat) => token) == s[i..]
    decreases |s| - i
  {
    hide Matches, TokenAt, OnePass;
    var itself := (token: string, k: nat) => token;
    OnePassEnds(d, s, n, itself);
    if i < |s| {
      var l := TokenAt(d, s, i);
      if Matches(d, s, i) {
        TokenEnd(d, s, i);
        TokensPutBack(d, s, i + l, n + 1);
        OnePassMatch(d, s, i, n, itself);
        assert s[i..] == s[i..i + l] + s[i + l..];
      } else {
        TokensPutBack(d, s, i + 1, n);
        OnePassKeeps(d, s, i, n, itself);
        assert s[i..] == [s[i]] + s[i + 1..];
      }
    }
  }

  /** The matches are numbered from n + 1 on, without a gap: what `f` makes of other numbers does not matter. */
  lemma {:induction false} NumbersWithin(d: Dialect, s: string, i: nat, n: nat,
                                         f: (string, nat) -> string, g: (string, nat) -> string)
    requires i <= |s|
    requires forall token, k :: n < k <= n + Count(d, s, i) ==> f(token, k) == g(token, k)
    ensures OnePass(d, s, i, n, f) == OnePass(d, s, i, n, g)
    decreases |s| - i
  {
    hide Matches, TokenAt, OnePass;
    OnePassEnds(d, s, n, f);
    OnePassEnds(d, s, n, g);
    if i < |s| {
      if Matches(d, s, i) {
        MatchesApart(d, s, i);
        TokenEnd(d, s, i);
        OnePassMatch(d, s, i, n, f);
        OnePassMatch(d, s, i, n, g);
        hide Count;
        NumbersWithin(d, s, i + TokenAt(d, s, i), n + 1, f, g);
      } else {
        OnePassKeeps(d, s, i, n, f);
        OnePassKeeps(d, s, i, n, g);
        NumbersWithin(d, s, i + 1, n, f, g);
      }
    }
  }

  lemma {:induction false} FirstStep(d: Dialect, query: string)
    ensures Partway(d, query, [], 0, 0) && [] + query[0..] == query
  {
    assert query[0..] == query;
    assert [] + OnePass(d, query, 0, 0, Replacer(d)) == Rewritten(d, query);
  }

  lemma {:induction false} LastStep(d: Dialect, query: string, done: string, i: nat, n: nat)
    requires Partway(d, query, done, i, n) && Leftmost(d, query, i) == |query|
    ensures var cur := done + query[i..];
            cur == Rewritten(d, query) && Clean(d, cur, |cur|) && Rewritten(d, cur) == cur
  {
    hide TokenAt, Matches;
    var cur := done + query[i..];
    LeftmostInQuery(d, query, done, i);
    OnePassSkips(d, query, i, |query|, n, Replacer(d));
    assert query[i..|query|] == query[i..];
    CleanIsFixed(d, cur);
  }

  /** The text in `typemap` for a token, by linear search. */
  method LookUpType(token: string) returns (t: Option<string>)
    ensures t == TypeFrom(0, token)
  {
    var i := 0;
    while i < |TYPEMAP|
      invariant 0 <= i <= |TYPEMAP| && TypeFrom(0, token) == TypeFrom(i, token)
    {
      if token == TYPEMAP[i].0 {
        return Some(TYPEMAP[i].1);
      }
      i := i + 1;
    }
    return None;
  }

  /** PQ_PREPROCESS_QUERY */
  method PqPreprocessQuery(sql: string) returns (normalized: string)
    ensures normalized == Rewritten(Postgres, sql)
    ensures Clean(Postgres, normalized, |normalized|) && Rewritten(Postgres, normalized) == normalized
  {
    hide Partway, Matches, TokenAt, Clean, Rewritten, Count;
    normalized := sql;
    var n: nat := 0;
    ghost var done: string, i: nat := [], 0;
    FirstStep(Postgres, sql);
    while Leftmost(Postgres, normalized, 0) < |normalized|
      invariant i <= |sql| && normalized == done + sql[i..] && Partway(Postgres, sql, done, i, n)
      decreases Count(Postgres, normalized, 0)
    {
      Located(Postgres, sql, done, i, n);
      var m := Leftmost(Postgres, normalized, 0);
      var l := TokenAt(Postgres, normalized, m);
      n := n + 1;
      var t := LookUpType(normalized[m..m + l]);
      var repl := if t.Some? then "$" + Decimal.Digits(n) + ("::" + t.value) else "$" + Decimal.Digits(n) + "";
      normalized := normalized[..m] + repl + normalized[m + l..];
      done, i := NextDone(Postgres, sql, done, i, n), NextAt(Postgres, sql, i);
    }
    Located(Postgres, sql, done, i, n);
    LastStep(Postgres, sql, done, i, n);
  }

  /** MYSQL_PREPROCESS_QUERY and SQLITE3_PREPROCESS_QUERY */
  method PreprocessQuery(sql: string) returns (query: string)
    ensures query == Rewritten(QuestionMarks, sql)
    ensures Clean(QuestionMarks, query, |query|) && Rewritten(QuestionMarks, query) == query
  {
    hide Partway, Matches, TokenAt, Clean, Rewritten, Count;
    query := sql;
    ghost var done: string, i: nat, n: nat := [], 0, 0;
    FirstStep(QuestionMarks, sql);
    while Leftmost(QuestionMarks, query, 0) < |query|
      invariant i <= |sql| && query == done + sql[i..] && Partway(QuestionMarks, sql, done, i, n)
      decreases Count(QuestionMarks, query, 0)
    {
      Located(QuestionMarks, sql, done, i, n);
      var m := Leftmost(QuestionMarks, query, 0);
      var l := TokenAt(QuestionMarks, query, m);
      query := query[..m] + "?" + query[m + l..];
      n := n + 1;
      done, i := NextDone(QuestionMarks, sql, done, i, n), NextAt(QuestionMarks, sql, i);
    }
    Located(QuestionMarks, sql, done, i, n);
    LastStep(QuestionMarks, sql, done, i, n);
  }

  /** Where the rest of the query starts after one more replacement, and what is done then. */
  ghost function NextAt(d: Dialect, query: string, i: nat): (next: nat)
    requires i <= |query|
    ensures next <= |query|
  {
    var j := Leftmost(d, query, i);
    j + TokenAt(d, query, j)
  }

  ghost function NextDone(d: Dialect, query: string, done: string, i: nat, n: nat): string
    requires i <= |query|
  {
    var j := Leftmost(d, query, i);
    done + query[i..j] + Replacement(d, query[j..NextAt(d, query, i)], n)
  }

  /** What one turn of the loop finds and does. */
  lemma {:induction false} Located(d: Dialect, query: string, done: string, i: nat, n: nat)
    requires i <= |query| && Partway(d, query, done, i, n)
    ensures var cur := done + query[i..];
            var m, j := Leftmost(d, cur, 0), Leftmost(d, query, i);
            && (m < |cur| <==> j < |query|)
            && (m < |cur| ==>
                  var next := NextDone(d, query, done, i, n + 1) + query[NextAt(d, query, i)..];
                  var token := cur[m..m + TokenAt(d, cur, m)];
                  && next == cur[..m] + Replacement(d, token, n + 1) + cur[m + TokenAt(d, cur, m)..]
                  && Partway(d, query, NextDone(d, query, done, i, n + 1), NextAt(d, query, i), n + 1)
                  && Count(d, next, 0) == Count(d, cur, 0) - 1)
  {
    hide TokenAt, Matches, Replacement, Count, OnePass, Rewritten, Clean;
    var j := Leftmost(d, query, i);
    assert Unquoted(done, query, i) && Clean(d, done + query[i..], |done|);
    LeftmostInQuery(d, query, done, i);
    if j < |query| {
      hide Partway, Unquoted;
      ReplaceInQuery(d, query, done, i, Replacement(d, query[j..j + TokenAt(d, query, j)], n + 1));
      ReplaceLeftmost(d, query, done, i, n);
    }
  }
}
