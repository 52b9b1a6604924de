/**
 * Bind values: the MySQL driver writes them into the query text, and all three drivers agree on
 * which value goes where.
 */
module Interpolation {
  import opened Optional
  import opened Pieces
  import opened Placeholders

  /** The client library's escaping; it at most doubles the length. */
  type Escape = string -> string

  /** What is written for a bind value; None is NULL. */
  function Literal(esc: Escape, v: Option<string>): string {
    if v.None? then "NULL" else "'" + esc(v.value) + "'"
  }

  /** What is written for the k-th value; nothing when there are fewer. */
  function ValueAt(esc: Escape, bind: seq<Option<string>>, k: nat): string {
    if k < |bind| then Literal(esc, bind[k]) else []
  }

  /** Every question mark replaced by its value, from the k-th value on, and every other character kept. */
  function Substituted(esc: Escape, query: string, bind: seq<Option<string>>, k: nat): string {
    if query == [] then []
    else if query[0] == '?' then ValueAt(esc, bind, k) + Substituted(esc, query[1..], bind, k + 1)
    else [query[0]] + Substituted(esc, query[1..], bind, k)
  }

  function QuestionMarksIn(query: string): nat {
    if query == [] then 0 else (if query[0] == '?' then 1 else 0) + QuestionMarksIn(query[1..])
  }

  /** The parts from n on, each followed by its value. */
  function Interleaved(esc: Escape, parts: seq<string>, bind: seq<Option<string>>, n: nat): string
    requires n <= |parts|
    decreases |parts| - n
  {
    if n == |parts| then [] else parts[n] + ValueAt(esc, bind, n) + Interleaved(esc, parts, bind, n + 1)
  }

  /** A value beyond the last question mark is written at the end of a query that does not end in one. */
  function Overhang(esc: Escape, query: string, bind: seq<Option<string>>, k: nat): string {
    if query == [] || query[|query| - 1] == '?' then [] else ValueAt(esc, bind, k + QuestionMarksIn(query))
  }

  /** The parts with the values from the k-th on. */
  function InterleavedFrom(esc: Escape, parts: seq<string>, bind: seq<Option<string>>, k: nat): string {
    if parts == [] then [] else parts[0] + ValueAt(esc, bind, k) + InterleavedFrom(esc, parts[1..], bind, k + 1)
  }

  lemma {:induction false} InterleavedIsFrom(esc: Escape, parts: seq<string>, bind: seq<Option<string>>, n: nat)
    requires n <= |parts|
    ensures Interleaved(esc, parts, bind, n) == InterleavedFrom(esc, parts[n..], bind, n)
    decreases |parts| - n
  {
    if n < |parts| {
      assert parts[n..][1..] == parts[n + 1..];
      InterleavedIsFrom(esc, parts, bind, n + 1);
    }
  }

  /** Text without question marks is kept. */
  lemma {:induction false} SubstitutedKeeps(esc: Escape, query: string, bind: seq<Option<string>>, k: nat, i: nat)
    requires i <= |query| && forall j :: 0 <= j < i ==> query[j] != '?'
    ensures Substituted(esc, query, bind, k) == query[..i] + Substituted(esc, query[i..], bind, k)
    ensures QuestionMarksIn(query) == QuestionMarksIn(query[i..])
    decreases i
  {
    hide ValueAt;
    if i == 0 {
      assert query[0..] == query;
    } else {
      var rest := query[1..];
      SubstitutedKeeps(esc, rest, bind, k, i - 1);
      assert query[..i] == [query[0]] + rest[..i - 1];
      assert query[i..] == rest[i - 1..];
    }
  }

  /** Up to the first question mark the text is kept. */
  lemma {:induction false} SubstitutedUpTo(esc: Escape, query: string, bind: seq<Option<string>>, k: nat)
    ensures var i := IndexOf('?', query);
            && Substituted(esc, query, bind, k) == query[..i] + Substituted(esc, query[i..], bind, k)
            && QuestionMarksIn(query) == QuestionMarksIn(query[i..])
  {
    hide IndexOf, Substituted, QuestionMarksIn;
    SubstitutedKeeps(esc, query, bind, k, IndexOf('?', query));
  }

  lemma Regroup(a: string, b: string, c: string, d: string)
    ensures a + b + (c + d) == a + b + c + d
    ensures a + (b + c + d) == a + b + c + d
  {
  }

  lemma {:induction false} OverhangStep(esc: Escape, query: string, bind: seq<Option<string>>, k: nat, i: nat)
    requires i == IndexOf('?', query) < |query|
    ensures Overhang(esc, query, bind, k) == Overhang(esc, query[i + 1..], bind, k + 1)
  {
    hide Substituted, ValueAt;
    var rest := query[i + 1..];
    SubstitutedUpTo(esc, query, bind, k);
    assert query[i..][1..] == rest;
    assert rest != [] ==> rest[|rest| - 1] == query[|query| - 1];
  }

  lemma {:induction false} SubstitutedStep(esc: Escape, query: string, bind: seq<Option<string>>, k: nat, i: nat)
    requires i == IndexOf('?', query) < |query|
    ensures Substituted(esc, query, bind, k)
         == query[..i] + ValueAt(esc, bind, k) + Substituted(esc, query[i + 1..], bind, k + 1)
  {
    SubstitutedUpTo(esc, query, bind, k);
    assert query[i..][1..] == query[i + 1..];
  }

  ghost predicate Interleaves(esc: Escape, query: string, bind: seq<Option<string>>, k: nat) {
    InterleavedFrom(esc, Cut('?', query), bind, k) == Substituted(esc, query, bind, k) + Overhang(esc, query, bind, k)
  }

  lemma {:induction false} InterleavesStep(esc: Escape, query: string, bind: seq<Option<string>>, k: nat, i: nat)
    requires i == IndexOf('?', query) < |query| && Interleaves(esc, query[i + 1..], bind, k + 1)
    ensures Interleaves(esc, query, bind, k)
  {
    var rest := query[i + 1..];
    CutAtMark(query, i);
    hide Cut, Substituted, Overhang, ValueAt, IndexOf;
    OverhangStep(esc, query, bind, k, i);
    SubstitutedStep(esc, query, bind, k, i);
    assert ([query[..i]] + Cut('?', rest))[1..] == Cut('?', rest);
    Regroup(query[..i], ValueAt(esc, bind, k), Substituted(esc, rest, bind, k + 1), Overhang(esc, rest, bind, k + 1));
  }

  lemma CutAtMark(query: string, i: nat)
    requires i == IndexOf('?', query) < |query|
    ensures Cut('?', query) == [query[..i]] + Cut('?', query[i + 1..])
  {
  }

  lemma {:induction false} InterleavesLast(esc: Escape, query: string, bind: seq<Option<string>>, k: nat)
    requires IndexOf('?', query) == |query|
    ensures Interleaves(esc, query, bind, k)
  {
    if query != [] {
      SubstitutedUpTo(esc, query, bind, k);
      assert query[..|query|] == query && query[|query|..] == [];
      assert Cut('?', query) == [query];
    }
  }

  /** For every query and every number of values: splitting and interleaving replaces the k-th
      question mark by value k (by nothing when there is none) and may append one value more. */
  lemma {:induction false} InterleavedSubstitutes(esc: Escape, query: string, bind: seq<Option<string>>, k: nat)
    ensures Interleaves(esc, query, bind, k)
    decreases |query|
  {
    hide Interleaves;
    var i := IndexOf('?', query);
    if i < |query| {
      InterleavedSubstitutes(esc, query[i + 1..], bind, k + 1);
      InterleavesStep(esc, query, bind, k, i);
    } else {
      InterleavesLast(esc, query, bind, k);
    }
  }

  /** The same of the parts themselves. */
  lemma {:induction false} PartsSubstitute(esc: Escape, query: string, bind: seq<Option<string>>)
    ensures Interleaved(esc, Cut('?', query), bind, 0)
         == Substituted(esc, query, bind, 0) + Overhang(esc, query, bind, 0)
  {
    var parts := Cut('?', query);
    hide Cut, Substituted, Overhang;
    InterleavedIsFrom(esc, parts, bind, 0);
    assert parts[0..] == parts;
    InterleavedSubstitutes(esc, query, bind, 0);
  }

  /** One value for each question mark: interpolation is substitution. */
  lemma {:induction false} InterpolationSubstitutes(esc: Escape, query: string, bind: seq<Option<string>>)
    requires |bind| == QuestionMarksIn(query)
    ensures Interleaved(esc, Cut('?', query), bind, 0) == Substituted(esc, query, bind, 0)
  {
    PartsSubstitute(esc, query, bind);
  }

  /** The text the MySQL driver sends, spelled out.  Up to the first question mark the query; then NULL, or
      the quoted escape, or nothing when no value is left; then the same with the rest of both.  Without a
      question mark the query, and behind it a value if there is one, unless the query is empty. */
  lemma {:induction false} SentSpelledOut(esc: Escape, a: string, b: string, bind: seq<Option<string>>)
    requires '?' !in a
    ensures var literal := if bind == [] then "" else if bind[0].None? then "NULL" else "'" + esc(bind[0].value) + "'";
            && Interleaved(esc, Cut('?', a + "?" + b), bind, 0)
               == a + literal + Interleaved(esc, Cut('?', b), if bind == [] then [] else bind[1..], 0)
            && (a != [] ==> Interleaved(esc, Cut('?', a), bind, 0) == a + literal)
            && Interleaved(esc, Cut('?', []), bind, 0) == []
  {
    CutFirst('?', a, b);
    InterleavedShift(esc, a, Cut('?', b), bind);
    if a != [] {
      IndexOfIs('?', a, |a|);
      assert a[..|a|] == a;
      InterleavedShift(esc, a, [], bind);
      assert [a] + [] == [a];
    }
  }

  lemma {:induction false} InterleavedShift(esc: Escape, a: string, parts: seq<string>, bind: seq<Option<string>>)
    ensures Interleaved(esc, [a] + parts, bind, 0)
         == a + ValueAt(esc, bind, 0) + Interleaved(esc, parts, if bind == [] then [] else bind[1..], 0)
  {
    ShiftedFrom(esc, a, parts, bind, 0);
    hide ValueAt;
    assert Interleaved(esc, [a] + parts, bind, 0) == a + ValueAt(esc, bind, 0) + Interleaved(esc, [a] + parts, bind, 1);
  }

  lemma {:induction false} ShiftedFrom(esc: Escape, a: string, parts: seq<string>, bind: seq<Option<string>>, n: nat)
    requires n <= |parts|
    ensures Interleaved(esc, [a] + parts, bind, n + 1)
         == Interleaved(esc, parts, if bind == [] then [] else bind[1..], n)
    decreases |parts| - n
  {
    if n < |parts| {
      ShiftedFrom(esc, a, parts, bind, n + 1);
      assert ([a] + parts)[n + 1] == parts[n];
    }
  }

  lemma CutEmpty()
    ensures Cut('?', []) == []
  {
  }

  /** The query cut into parts at its question marks. */
  method SplitQuery(query: string) returns (parts: seq<string>)
    ensures parts == Cut('?', query)
  {
    CutEmpty();
    hide Cut;
    parts := [];
    var begin, end := 0, 0;
    assert query[0..] == query;
    while begin < |query|
      invariant 0 <= begin == end <= |query| + 1
      invariant begin <= |query| ==> Cut('?', query) == parts + Cut('?', query[begin..])
      invariant begin > |query| ==> Cut('?', query) == parts
      decreases |query| + 1 - begin
    {
      while end < |query| && query[end] != '?'
        invariant begin <= end <= |query| && forall i :: begin <= i < end ==> query[i] != '?'
      {
        end := end + 1;
      }
      CutNext('?', query, begin, end);
      assert end == |query| ==> query[end..] == [];
      parts := parts + [query[begin..end]];
      end := end + 1;
      begin := end;
    }
    assert begin == |query| ==> query[begin..] == [];
  }

  lemma InterleavedStep(esc: Escape, done: string, parts: seq<string>, bind: seq<Option<string>>, n: nat)
    requires n < |parts|
    ensures done + Interleaved(esc, parts, bind, n)
         == done + parts[n] + ValueAt(esc, bind, n) + Interleaved(esc, parts, bind, n + 1)
  {
    hide ValueAt;
    Regroup(done, parts[n], ValueAt(esc, bind, n), Interleaved(esc, parts, bind, n + 1));
  }

  lemma InterleavedEnd(esc: Escape, parts: seq<string>, bind: seq<Option<string>>)
    ensures Interleaved(esc, parts, bind, |parts|) == []
  {
  }

  /** MYSQL_INTERPOLATE_BIND: one escape buffer is reused and grows when a value might not fit. */
  method InterpolateBind(esc: Escape, query: string, bind: seq<Option<string>>) returns (result: string)
    requires forall v :: |esc(v)| <= 2 * |v|
    ensures result == Interleaved(esc, Cut('?', query), bind, 0)
    ensures result == Substituted(esc, query, bind, 0) + Overhang(esc, query, bind, 0)
  {
    var parts := SplitQuery(query);
    hide Cut, Substituted, Overhang, Interleaved, ValueAt;
    PartsSubstitute(esc, query, bind);
    InterleavedEnd(esc, parts, bind);
    result := "";
    var escaped := new char[1024];
    var n := 0;
    while n < |parts|
      invariant 0 <= n <= |parts| && fresh(escaped)
      invariant Interleaved(esc, parts, bind, 0) == result + Interleaved(esc, parts, bind, n)
    {
      InterleavedStep(esc, result, parts, bind, n);
      result := result + parts[n];
      var text;
      escaped, text := WriteValue(esc, bind, n, escaped);
      result := result + text;
      n := n + 1;
    }
  }

  /** What is appended after part n. */
  method WriteValue(esc: Escape, bind: seq<Option<string>>, n: nat, buffer: array<char>)
      returns (escaped: array<char>, text: string)
    requires forall v :: |esc(v)| <= 2 * |v|
    modifies buffer
    ensures escaped == buffer || fresh(escaped)
    ensures text == ValueAt(esc, bind, n)
  {
    escaped, text := buffer, "";
    if n < |bind| {
      if bind[n].None? {
        text := "NULL";
      } else {
        escaped, text := Quote(esc, bind[n].value, escaped);
      }
    }
  }

  /** Writes the quoted escape of v into the buffer, or into a larger one, and reads it out. */
  method Quote(esc: Escape, v: string, buffer: array<char>) returns (escaped: array<char>, literal: string)
    requires |esc(v)| <= 2 * |v|
    modifies buffer
    ensures escaped == buffer || fresh(escaped)
    ensures literal == Literal(esc, Some(v))
  {
    escaped := buffer;
    var len := |v| * 2 + 3;
    if len > escaped.Length {
      escaped := new char[len + 2];
    }
    var e := esc(v);
    forall i | 0 <= i < |e| {
      escaped[1 + i] := e[i];
    }
    len := |e|;
    escaped[0] := '\'';
    escaped[len + 1] := '\'';
    escaped[len + 2] := '\0';
    len := len + 2;
    literal := escaped[..len];
    assert literal == ['\''] + e + ['\''];
  }

  // ---- the drivers agree

  /** No question mark touches a quote: every one is a placeholder for PostgreSQL too. */
  predicate QuestionMarksFree(s: string) {
    forall i :: 0 <= i < |s| && s[i] == '?' ==> Matches(Postgres, s, i)
  }

  /** That is, no quote stands directly before or behind a question mark. */
  lemma QuestionMarksFreeExactly(s: string)
    ensures QuestionMarksFree(s) <==>
              forall i :: 0 <= i < |s| - 1 ==> (s[i] == '?' ==> s[i + 1] != '\'') && (s[i + 1] == '?' ==> s[i] != '\'')
  {
    if QuestionMarksFree(s) {
      forall i | 0 <= i < |s| - 1
        ensures (s[i] == '?' ==> s[i + 1] != '\'') && (s[i + 1] == '?' ==> s[i] != '\'')
      {
        assert s[i] == '?' ==> Matches(Postgres, s, i);
        assert s[i + 1] == '?' ==> Matches(Postgres, s, i + 1);
      }
    }
  }

  /** The PostgreSQL template of a query with value k - 1 written in place of its parameter k. */
  function Template(esc: Escape, bind: seq<Option<string>>): (string, nat) -> string {
    (token: string, n: nat) => if n > 0 then ValueAt(esc, bind, n - 1) else ""
  }

  /** The question marks of s from i on that PostgreSQL does not take for placeholders. */
  function Quoted(s: string, i: nat): nat
    requires i <= |s|
    decreases |s| - i
  {
    if i == |s| then 0 else (if s[i] == '?' && !Matches(Postgres, s, i) then 1 else 0) + Quoted(s, i + 1)
  }

  /** The two regular expressions match the same tokens, but for question marks. */
  lemma SameTokens(s: string, i: nat)
    requires i <= |s|
    ensures i < |s| && s[i] != '?' ==>
              && Matches(Postgres, s, i) == Matches(QuestionMarks, s, i)
              && TokenAt(Postgres, s, i) == TokenAt(QuestionMarks, s, i)
    ensures i < |s| && s[i] == '?' ==> !Matches(QuestionMarks, s, i) && TokenAt(Postgres, s, i) == 1
    ensures i < |s| && Matches(QuestionMarks, s, i) ==>
              forall p :: i <= p < i + TokenAt(QuestionMarks, s, i) ==> s[p] != '?'
    ensures i < |s| && Matches(Postgres, s, i) ==> forall p :: i < p < i + TokenAt(Postgres, s, i) ==> s[p] != '?'
    ensures i < |s| && (Matches(Postgres, s, i) || Matches(QuestionMarks, s, i)) ==> TokenAt(Postgres, s, i) > 0
  {
  }

  /** The first character of a text, kept or substituted. */
  lemma {:induction false} FirstCharacter(esc: Escape, x: char, rest: string, bind: seq<Option<string>>, k: nat)
    ensures Substituted(esc, [x] + rest, bind, k)
         == if x == '?' then ValueAt(esc, bind, k) + Substituted(esc, rest, bind, k + 1)
            else [x] + Substituted(esc, rest, bind, k)
  {
  }

  lemma {:induction false} FirstCounted(x: char, rest: string)
    ensures QuestionMarksIn([x] + rest) == (if x == '?' then 1 else 0) + QuestionMarksIn(rest)
  {
  }

  /** MySQL's and SQLite's text from i on: a matched token or a question mark gives a question mark,
      any other character itself. */
  lemma {:induction false} MarksFrom(s: string, i: nat, k: nat)
    requires i < |s|
    ensures var token := TokenAt(Postgres, s, i);
            Marks(s, i, k) ==
            if Matches(Postgres, s, i) then ['?'] + Marks(s, i + token, k + 1) else [s[i]] + Marks(s, i + 1, k)
  {
    SameTokens(s, i);
    if Matches(Postgres, s, i) && s[i] == '?' {
      CountedAnyway(s, i + 1, k, k + 1);
    }
  }

  function Marks(s: string, i: nat, k: nat): string
    requires i <= |s|
  {
    OnePass(QuestionMarks, s, i, k, Replacer(QuestionMarks))
  }

  lemma {:induction false} TemplateFrom(esc: Escape, s: string, bind: seq<Option<string>>, i: nat, k: nat)
    requires i < |s|
    ensures var token, f := TokenAt(Postgres, s, i), Template(esc, bind);
            OnePass(Postgres, s, i, k, f) ==
            if Matches(Postgres, s, i) then ValueAt(esc, bind, k) + OnePass(Postgres, s, i + token, k + 1, f)
            else [s[i]] + OnePass(Postgres, s, i + 1, k, f)
  {
  }

  lemma NoMarkUnmatched(s: string, i: nat)
    requires i < |s| && QuestionMarksFree(s)
    ensures !Matches(Postgres, s, i) ==> s[i] != '?'
  {
  }

  /** From i on, counting from k, substitution in the rewritten text gives the template with values. */
  ghost predicate Follows(esc: Escape, s: string, bind: seq<Option<string>>, i: nat, k: nat)
    requires i <= |s|
  {
    Substituted(esc, Marks(s, i, k), bind, k) == OnePass(Postgres, s, i, k, Template(esc, bind))
  }

  lemma {:induction false} FollowsStep(esc: Escape, s: string, bind: seq<Option<string>>, i: nat, k: nat)
    requires i < |s| && QuestionMarksFree(s)
    requires if Matches(Postgres, s, i) then Follows(esc, s, bind, i + TokenAt(Postgres, s, i), k + 1)
             else Follows(esc, s, bind, i + 1, k)
    ensures Follows(esc, s, bind, i, k)
  {
    NoMarkUnmatched(s, i);
    hide TokenAt, Matches, Substituted, OnePass, Marks, ValueAt, QuestionMarksFree, Template;
    MarksFrom(s, i, k);
    TemplateFrom(esc, s, bind, i, k);
    if Matches(Postgres, s, i) {
      FirstCharacter(esc, '?', Marks(s, i + TokenAt(Postgres, s, i), k + 1), bind, k);
    } else {
      FirstCharacter(esc, s[i], Marks(s, i + 1, k), bind, k);
    }
  }

  /** MySQL's rewriting followed by substitution puts value k where PostgreSQL puts parameter k. */
  lemma {:induction false} SubstitutionFollowsTemplate(esc: Escape, s: string, bind: seq<Option<string>>,
                                                       i: nat, k: nat)
    requires i <= |s| && QuestionMarksFree(s)
    ensures Follows(esc, s, bind, i, k)
    decreases |s| - i
  {
    hide TokenAt, Matches, QuestionMarksFree;
    if i < |s| {
      hide Follows;
      if Matches(Postgres, s, i) {
        MatchHasToken(s, i);
        SubstitutionFollowsTemplate(esc, s, bind, i + TokenAt(Postgres, s, i), k + 1);
      } else {
        SubstitutionFollowsTemplate(esc, s, bind, i + 1, k);
      }
      FollowsStep(esc, s, bind, i, k);
    }
  }

  lemma MatchHasToken(s: string, i: nat)
    requires i <= |s| && Matches(Postgres, s, i)
    ensures TokenAt(Postgres, s, i) > 0
  {
  }

  /** The MySQL and SQLite replacement does not depend on the count. */
  lemma {:induction false} CountedAnyway(s: string, i: nat, m: nat, n: nat)
    requires i <= |s|
    ensures OnePass(QuestionMarks, s, i, m, Replacer(QuestionMarks)) ==
            OnePass(QuestionMarks, s, i, n, Replacer(QuestionMarks))
    decreases |s| - i
  {
    if i < |s| {
      if Matches(QuestionMarks, s, i) {
        CountedAnyway(s, i + TokenAt(QuestionMarks, s, i), m + 1, n + 1);
      } else {
        CountedAnyway(s, i + 1, m, n);
      }
    }
  }

  lemma {:induction false} QuotedSkips(s: string, i: nat, l: nat)
    requires i + l <= |s| && forall p :: i <= p < i + l ==> s[p] != '?'
    ensures Quoted(s, i) == Quoted(s, i + l)
    decreases l
  {
    if l > 0 {
      QuotedSkips(s, i + 1, l - 1);
    }
  }

  /** A match is counted once, and what is quoted lies behind it. */
  lemma {:induction false} BehindMatch(s: string, i: nat)
    requires i < |s| && Matches(Postgres, s, i)
    ensures var l := TokenAt(Postgres, s, i);
            l > 0 && Count(Postgres, s, i) == 1 + Count(Postgres, s, i + l) && Quoted(s, i) == Quoted(s, i + l)
  {
    SameTokens(s, i);
    hide TokenAt, Matches;
    MatchesApart(Postgres, s, i);
    QuotedSkips(s, i + 1, TokenAt(Postgres, s, i) - 1);
  }

  lemma NotMatched(s: string, i: nat)
    requires i < |s| && !Matches(Postgres, s, i)
    ensures Count(Postgres, s, i) == Count(Postgres, s, i + 1)
    ensures Quoted(s, i) == (if s[i] == '?' then 1 else 0) + Quoted(s, i + 1)
  {
  }

  /** The rewritten text has one question mark for each PostgreSQL parameter and one for each quoted
      question mark. */
  lemma {:induction false} QuestionMarksCounted(s: string, i: nat, n: nat)
    requires i <= |s|
    ensures QuestionMarksIn(Marks(s, i, n)) == Count(Postgres, s, i) + Quoted(s, i)
    decreases |s| - i
  {
    if i < |s| {
      hide TokenAt, Matches, OnePass, Marks, QuestionMarksIn, Count, Quoted;
      MarksFrom(s, i, n);
      if Matches(Postgres, s, i) {
        var l := TokenAt(Postgres, s, i);
        BehindMatch(s, i);
        QuestionMarksCounted(s, i + l, n + 1);
        FirstCounted('?', Marks(s, i + l, n + 1));
      } else {
        NotMatched(s, i);
        QuestionMarksCounted(s, i + 1, n);
        FirstCounted(s[i], Marks(s, i + 1, n));
      }
    }
  }

  lemma {:induction false} NoneQuoted(s: string, i: nat)
    requires i <= |s|
    ensures Quoted(s, i) == 0 <==> forall p :: i <= p < |s| && s[p] == '?' ==> Matches(Postgres, s, p)
    decreases |s| - i
  {
    if i < |s| {
      NoneQuoted(s, i + 1);
    }
  }

  /** SQLite's text has as many question marks as PostgreSQL has parameters exactly when none
      touches a quote. */
  lemma {:induction false} ParametersAgreeExactly(s: string)
    ensures QuestionMarksIn(Rewritten(QuestionMarks, s)) == Count(Postgres, s, 0) <==> QuestionMarksFree(s)
  {
    QuestionMarksCounted(s, 0, 0);
    NoneQuoted(s, 0);
  }

  /** Where no placeholder is left, PostgreSQL's text and the rewritten one are the text itself. */
  lemma {:induction false} NothingMatches(s: string, i: nat, k: nat, f: (string, nat) -> string)
    requires i <= |s| && Count(Postgres, s, i) == 0
    ensures Marks(s, i, k) == OnePass(Postgres, s, i, k, f) == s[i..]
    decreases |s| - i
  {
    if i < |s| {
      NothingMatches(s, i + 1, k, f);
      hide TokenAt, Matches;
      MarksFrom(s, i, k);
      assert s[i..] == [s[i]] + s[i + 1..];
    }
  }

  /** Beyond the last value every question mark is dropped. */
  lemma {:induction false} MarksDropped(esc: Escape, query: string, bind: seq<Option<string>>, k: nat)
    requires k >= |bind|
    ensures |Substituted(esc, query, bind, k)| + QuestionMarksIn(query) == |query|
  {
    if query != [] {
      MarksDropped(esc, query[1..], bind, if query[0] == '?' then k + 1 else k);
    }
  }

  lemma SamePrefix(p: string, a: string, b: string)
    ensures p + a == p + b <==> a == b
  {
    assert (p + a)[|p|..] == a && (p + b)[|p|..] == b;
  }

  /** At a quoted question mark the MySQL driver writes a value, or drops the mark. */
  lemma {:induction false} QuotedMarkReplaced(esc: Escape, s: string, bind: seq<Option<string>>, i: nat, k: nat)
    requires i < |s| && s[i] == '?' && !Matches(Postgres, s, i) && k + Count(Postgres, s, i) == |bind|
    ensures !Follows(esc, s, bind, i, k)
  {
    hide TokenAt, Matches, OnePass, Marks, Count;
    MarksFrom(s, i, k);
    TemplateFrom(esc, s, bind, i, k);
    FirstCharacter(esc, '?', Marks(s, i + 1, k), bind, k);
    if k < |bind| {
      assert ValueAt(esc, bind, k)[0] != '?';
    } else {
      NothingMatches(s, i, k, Template(esc, bind));
      FirstCounted('?', Marks(s, i + 1, k));
      MarksDropped(esc, Marks(s, i, k), bind, k);
    }
  }

  /** With one value for each parameter of PostgreSQL, a quoted question mark makes the texts differ. */
  lemma {:induction false} QuotedMarkDiffers(esc: Escape, s: string, bind: seq<Option<string>>, i: nat, k: nat)
    requires i <= |s| && Quoted(s, i) > 0 && k + Count(Postgres, s, i) == |bind|
    ensures !Follows(esc, s, bind, i, k)
    decreases |s| - i
  {
    hide TokenAt, Matches, OnePass, Marks, Substituted, ValueAt, Template;
    MarksFrom(s, i, k);
    TemplateFrom(esc, s, bind, i, k);
    var f := Template(esc, bind);
    if Matches(Postgres, s, i) {
      BehindMatch(s, i);
      var next := i + TokenAt(Postgres, s, i);
      QuotedMarkDiffers(esc, s, bind, next, k + 1);
      FirstCharacter(esc, '?', Marks(s, next, k + 1), bind, k);
      SamePrefix(ValueAt(esc, bind, k), Substituted(esc, Marks(s, next, k + 1), bind, k + 1),
                 OnePass(Postgres, s, next, k + 1, f));
    } else if s[i] == '?' {
      QuotedMarkReplaced(esc, s, bind, i, k);
    } else {
      QuotedMarkDiffers(esc, s, bind, i + 1, k);
      FirstCharacter(esc, s[i], Marks(s, i + 1, k), bind, k);
      SamePrefix([s[i]], Substituted(esc, Marks(s, i + 1, k), bind, k), OnePass(Postgres, s, i + 1, k, f));
    }
  }

  /** With one value for each parameter of PostgreSQL, what the MySQL driver sends is the PostgreSQL
      template with the k-th value in place of its k-th parameter, exactly when no question mark
      touches a quote. */
  lemma {:induction false} DriversAgreeExactly(esc: Escape, s: string, bind: seq<Option<string>>)
    requires |bind| == Count(Postgres, s, 0)
    ensures (Interleaved(esc, Cut('?', Rewritten(QuestionMarks, s)), bind, 0)
             == OnePass(Postgres, s, 0, 0, Template(esc, bind))) <==> QuestionMarksFree(s)
  {
    PartsSubstitute(esc, Rewritten(QuestionMarks, s), bind);
    QuestionMarksCounted(s, 0, 0);
    NoneQuoted(s, 0);
    if QuestionMarksFree(s) {
      SubstitutionFollowsTemplate(esc, s, bind, 0, 0);
    } else {
      QuotedMarkDiffers(esc, s, bind, 0, 0);
    }
  }
}
