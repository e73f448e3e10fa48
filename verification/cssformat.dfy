/**
 * The `custom/css` formatter: the distinct collections of the token list in
 * first-seen order, one section per collection listing that collection's
 * tokens in their original order as `--name : value;`, all inside a fixed
 * prologue and a `:root { … }` block.
 *
 * `camel` stands for lodash `camelCase`, used only in section headers.
 */
module CssFormat {
  import opened Strings
  import opened Tokens

  /** No collection name is listed twice */
  predicate NoDuplicates(cs: seq<string>) {
    forall a, b :: 0 <= a < b < |cs| ==> cs[a] != cs[b]
  }

  /** Some token of `ts` belongs to collection `c` */
  ghost predicate HasCollection(ts: seq<Token>, c: string) {
    exists k :: 0 <= k < |ts| && ts[k].collection == c
  }

  /** `k` is the first position of `ts` whose token belongs to `c` */
  ghost predicate IsFirst(ts: seq<Token>, c: string, k: int) {
    0 <= k < |ts| && ts[k].collection == c && forall l :: 0 <= l < k ==> ts[l].collection != c
  }

  /** The `collections` array: each token's collection pushed unless already present */
  function Collections(ts: seq<Token>): (r: seq<string>)
    ensures NoDuplicates(r)
    ensures forall c :: c in r <==> HasCollection(ts, c)
  {
    if |ts| == 0 then []
    else
      var prefix := ts[..|ts| - 1];
      var prev := Collections(prefix);
      var c := ts[|ts| - 1].collection;
      assert forall x :: HasCollection(prefix, x) ==> HasCollection(ts, x) by {
        forall x | HasCollection(prefix, x) ensures HasCollection(ts, x) {
          var k :| 0 <= k < |prefix| && prefix[k].collection == x;
          assert ts[k].collection == x;
        }
      }
      assert forall x :: HasCollection(ts, x) ==> HasCollection(prefix, x) || x == c by {
        forall x | HasCollection(ts, x) ensures HasCollection(prefix, x) || x == c {
          var k :| 0 <= k < |ts| && ts[k].collection == x;
          if k < |prefix| {
            assert prefix[k].collection == x;
          }
        }
      }
      if c in prev then prev else prev + [c]
  }

  /** The tokens of collection `c`, in their order in `ts` */
  function Filter(ts: seq<Token>, c: string): (r: seq<Token>)
    ensures |r| <= |ts|
    ensures forall i :: 0 <= i < |r| ==> r[i].collection == c
  {
    if |ts| == 0 then []
    else
      var prev := Filter(ts[..|ts| - 1], c);
      if ts[|ts| - 1].collection == c then prev + [ts[|ts| - 1]] else prev
  }

  /** One token line: `--name : value;` */
  function Line(t: Token): string {
    "--" + t.name + " : " + Stringify(t.value) + ";"
  }

  function Lines(ts: seq<Token>): (r: seq<string>)
    ensures |r| == |ts|
    ensures forall i :: 0 <= i < |ts| ==> r[i] == Line(ts[i])
  {
    seq(|ts|, i requires 0 <= i < |ts| => Line(ts[i]))
  }

  /** One section: a header comment with the display name, then the lines joined by newlines */
  function SectionText(header: string, lines: seq<string>): string {
    "/* " + header + " */\n      " + Join(lines, "\n") + "\n    \n"
  }

  /** The line lists of the collections `cs`, one per collection, each in token order */
  function LineLists(ts: seq<Token>, cs: seq<string>): (r: seq<seq<string>>)
    ensures |r| == |cs|
  {
    seq(|cs|, k requires 0 <= k < |cs| => Lines(Filter(ts, cs[k])))
  }

  /** The section texts, one per collection in first-seen order */
  function Sections(ts: seq<Token>, camel: string -> string): (r: seq<string>)
    ensures |r| == |Collections(ts)|
  {
    var cs := Collections(ts);
    var lists := LineLists(ts, cs);
    seq(|cs|, k requires 0 <= k < |cs| => SectionText(camel(cs[k]), lists[k]))
  }

  const Prologue := "/* Generated by friendly robots. */\n\n:root {\n"
  const Epilogue := "\n}"

  /** The `custom/css` formatter */
  function Format(ts: seq<Token>, camel: string -> string): (r: string)
    ensures |r| >= |Prologue| + |Epilogue|
    ensures r[..|Prologue|] == Prologue
    ensures r[|r| - |Epilogue|..] == Epilogue
  {
    var body := Join(Sections(ts, camel), "");
    var r := Prologue + body + Epilogue;
    assert r[..|Prologue|] == Prologue;
    assert r[|r| - |Epilogue|..] == Epilogue;
    r
  }

  /** A first occurrence in `ts` that also occurs in the prefix before the last token is first there too */
  lemma FirstInPrefix(ts: seq<Token>, x: string, k: int)
    requires |ts| > 0 && IsFirst(ts, x, k) && HasCollection(ts[..|ts| - 1], x)
    ensures k < |ts| - 1 && IsFirst(ts[..|ts| - 1], x, k)
  {
    var m :| 0 <= m < |ts| - 1 && ts[..|ts| - 1][m].collection == x;
    assert ts[m].collection == x;
  }

  /** The collections are listed in the order of their first tokens */
  lemma {:induction false} CollectionsFirstSeen(ts: seq<Token>)
    ensures forall a, b, ka, kb ::
              && 0 <= a < b < |Collections(ts)|
              && IsFirst(ts, Collections(ts)[a], ka)
              && IsFirst(ts, Collections(ts)[b], kb)
              ==> ka < kb
  {
    if |ts| > 0 {
      var prefix := ts[..|ts| - 1];
      var prev := Collections(prefix);
      var r := Collections(ts);
      var c := ts[|ts| - 1].collection;
      CollectionsFirstSeen(prefix);
      forall a, b, ka, kb | 0 <= a < b < |r| && IsFirst(ts, r[a], ka) && IsFirst(ts, r[b], kb)
        ensures ka < kb
      {
        assert r[a] in prev;
        FirstInPrefix(ts, r[a], ka);
        if b < |prev| {
          assert r[b] == prev[b];
          FirstInPrefix(ts, r[b], kb);
        } else {
          assert r[b] == c && c !in prev;
        }
      }
    }
  }

  /** Filtering a longer prefix only extends the result */
  lemma {:induction false} FilterPrefix(ts: seq<Token>, c: string, j: nat)
    requires j <= |ts|
    ensures |Filter(ts[..j], c)| <= |Filter(ts, c)|
    ensures Filter(ts, c)[..|Filter(ts[..j], c)|] == Filter(ts[..j], c)
    decreases |ts|
  {
    if j < |ts| {
      var prefix := ts[..|ts| - 1];
      assert prefix[..j] == ts[..j];
      FilterPrefix(prefix, c, j);
    } else {
      assert ts[..j] == ts;
    }
  }

  /** Where token `i` stands within its collection's section: the number of earlier tokens of that collection */
  function Rank(ts: seq<Token>, i: nat): nat
    requires i < |ts|
  {
    |Filter(ts[..i], ts[i].collection)|
  }

  /** Token `i` appears in its collection's section, at its rank */
  lemma TokenInSection(ts: seq<Token>, i: nat)
    requires i < |ts|
    ensures Rank(ts, i) < |Filter(ts, ts[i].collection)|
    ensures Filter(ts, ts[i].collection)[Rank(ts, i)] == ts[i]
  {
    var c := ts[i].collection;
    assert ts[..i + 1][..i] == ts[..i];
    assert Filter(ts[..i + 1], c) == Filter(ts[..i], c) + [ts[i]];
    FilterPrefix(ts, c, i + 1);
  }

  /** Two tokens of one collection keep their relative order in its section */
  lemma SectionKeepsOrder(ts: seq<Token>, i: nat, i2: nat)
    requires i < i2 < |ts| && ts[i].collection == ts[i2].collection
    ensures Rank(ts, i) < Rank(ts, i2)
  {
    var c := ts[i].collection;
    assert ts[..i + 1][..i] == ts[..i];
    assert Filter(ts[..i + 1], c) == Filter(ts[..i], c) + [ts[i]];
    assert ts[..i2][..i + 1] == ts[..i + 1];
    FilterPrefix(ts[..i2], c, i + 1);
  }

  /** The concatenation of the sections' token lists, for the collections `cs` in order */
  function Grouped(ts: seq<Token>, cs: seq<string>): seq<Token> {
    if |cs| == 0 then [] else Filter(ts, cs[0]) + Grouped(ts, cs[1..])
  }

  lemma {:induction false} GroupedOfNothing(cs: seq<string>)
    ensures Grouped([], cs) == []
  {
    if |cs| > 0 {
      GroupedOfNothing(cs[1..]);
    }
  }

  /** One more token adds one copy of itself to the grouping when its collection is listed once */
  lemma {:induction false} GroupedSnoc(ts: seq<Token>, t: Token, cs: seq<string>)
    requires NoDuplicates(cs)
    ensures multiset(Grouped(ts + [t], cs)) ==
              multiset(Grouped(ts, cs)) + (if t.collection in cs then multiset{t} else multiset{})
  {
    if |cs| > 0 {
      assert NoDuplicates(cs[1..]);
      GroupedSnoc(ts, t, cs[1..]);
      assert (ts + [t])[..|ts|] == ts;
      assert t.collection in cs <==> t.collection == cs[0] || t.collection in cs[1..];
      if t.collection == cs[0] {
        assert cs[0] !in cs[1..];
      }
    }
  }

  lemma {:induction false} GroupedPermutation(ts: seq<Token>, cs: seq<string>)
    requires NoDuplicates(cs)
    requires forall i :: 0 <= i < |ts| ==> ts[i].collection in cs
    ensures multiset(Grouped(ts, cs)) == multiset(ts)
  {
    if |ts| == 0 {
      GroupedOfNothing(cs);
    } else {
      var prefix := ts[..|ts| - 1];
      var t := ts[|ts| - 1];
      GroupedPermutation(prefix, cs);
      GroupedSnoc(prefix, t, cs);
      assert prefix + [t] == ts;
    }
  }

  /** Every token is emitted exactly once over all sections */
  lemma SectionsPartitionTokens(ts: seq<Token>)
    ensures multiset(Grouped(ts, Collections(ts))) == multiset(ts)
  {
    forall i | 0 <= i < |ts|
      ensures ts[i].collection in Collections(ts)
    {
      assert HasCollection(ts, ts[i].collection);
    }
    GroupedPermutation(ts, Collections(ts));
  }

  /** The concatenation of a list of line lists */
  function Concat(xss: seq<seq<string>>): seq<string> {
    if |xss| == 0 then [] else xss[0] + Concat(xss[1..])
  }

  lemma {:induction false} LinesAppend(a: seq<Token>, b: seq<Token>)
    ensures Lines(a + b) == Lines(a) + Lines(b)
  {
    assert forall i :: 0 <= i < |a + b| ==> Lines(a + b)[i] == (Lines(a) + Lines(b))[i];
  }

  /** The line lists of `cs`, concatenated, are the lines of the grouped tokens */
  lemma {:induction false} LineListsAreGroupedLines(ts: seq<Token>, cs: seq<string>)
    ensures Concat(LineLists(ts, cs)) == Lines(Grouped(ts, cs))
  {
    if |cs| == 0 {
      assert Lines([]) == [];
    } else {
      var lists := LineLists(ts, cs);
      assert lists[0] == Lines(Filter(ts, cs[0]));
      assert lists[1..] == LineLists(ts, cs[1..]);
      LineListsAreGroupedLines(ts, cs[1..]);
      LinesAppend(Filter(ts, cs[0]), Grouped(ts, cs[1..]));
    }
  }

  /**
   * What the sections write, line by line: section k holds the lines of its
   * collection's tokens, and all sections' lines, concatenated, are the lines
   * of a permutation of the tokens, so every token is written exactly once
   */
  lemma SectionsEmitEachTokenOnce(ts: seq<Token>, camel: string -> string)
    ensures forall k :: 0 <= k < |Collections(ts)| ==>
              Sections(ts, camel)[k] == SectionText(camel(Collections(ts)[k]), LineLists(ts, Collections(ts))[k])
    ensures Concat(LineLists(ts, Collections(ts))) == Lines(Grouped(ts, Collections(ts)))
    ensures multiset(Grouped(ts, Collections(ts))) == multiset(ts)
  {
    LineListsAreGroupedLines(ts, Collections(ts));
    SectionsPartitionTokens(ts);
  }

  /** The line of every token appears in the output */
  lemma TokenLineEmitted(ts: seq<Token>, camel: string -> string, i: nat)
    requires i < |ts|
    ensures IsSubstring(Line(ts[i]), Format(ts, camel))
  {
    var c := ts[i].collection;
    var cs := Collections(ts);
    assert HasCollection(ts, c);
    var k :| 0 <= k < |cs| && cs[k] == c;
    TokenInSection(ts, i);
    var lines := Lines(Filter(ts, c));
    assert LineLists(ts, cs)[k] == lines;
    JoinHasPart(lines, "\n", Rank(ts, i));
    var sections := Sections(ts, camel);
    var head := "/* " + camel(c) + " */\n      ";
    SubstringOfConcat(Line(ts[i]), head, Join(lines, "\n"), "\n    \n");
    assert sections[k] == head + Join(lines, "\n") + "\n    \n";
    JoinHasPart(sections, "", k);
    SubstringTransitive(Line(ts[i]), sections[k], Join(sections, ""));
    SubstringOfConcat(Line(ts[i]), Prologue, Join(sections, ""), Epilogue);
  }

  /** Tokens of collections a, b, a give the sections a then b: first-seen, not sorted */
  lemma SectionOrderScenario(t0: Token, t1: Token, t2: Token)
    requires t0.collection == "a" && t1.collection == "b" && t2.collection == "a"
    ensures Collections([t0, t1, t2]) == ["a", "b"]
  {
    assert [t0, t1, t2][..2] == [t0, t1] && [t0, t1][..1] == [t0] && [t0][..0] == [];
    assert Collections([t0]) == ["a"];
    assert Collections([t0, t1]) == ["a", "b"];
  }

  /** Tokens of collections a, b, a: section a lists the first and the third token, in that order */
  lemma SectionContentScenario(t0: Token, t1: Token, t2: Token)
    requires t0.collection == "a" && t1.collection == "b" && t2.collection == "a"
    ensures Filter([t0, t1, t2], "a") == [t0, t2]
    ensures Filter([t0, t1, t2], "b") == [t1]
  {
    assert [t0, t1, t2][..2] == [t0, t1] && [t0, t1][..1] == [t0] && [t0][..0] == [];
    assert Filter([t0], "a") == [t0] && Filter([t0], "b") == [];
    assert Filter([t0, t1], "a") == [t0] && Filter([t0, t1], "b") == [t1];
  }
}
