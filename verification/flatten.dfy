/**
 * The document flattener `toStyleDictionaryFormat`: for every mode (outer
 * loop) and every variable (inner loop) it builds one flat token and stores
 * it under its key by plain assignment, so a later pair with the same key
 * replaces an earlier one. The lookup of the variable's value for the mode
 * is unguarded: a missing entry makes the whole call fail.
 *
 * `kebab` stands for lodash `kebabCase`; nothing is assumed about it.
 */
module Flatten {
  import opened Results
  import opened Tokens

  datatype FlattenError = MissingModeValue(modeId: string, variable: string)

  /** The variable has a resolved value for the mode */
  predicate HasValue(m: Mode, v: Variable) {
    m.id in v.resolvedValuesByMode
  }

  /** Every mode has a value in the modes prefix `ms` for every variable */
  predicate CompleteFor(ms: seq<Mode>, vs: seq<Variable>) {
    forall i, j :: 0 <= i < |ms| && 0 <= j < |vs| ==> HasValue(ms[i], vs[j])
  }

  /** Every variable has a resolved value for every mode of the document */
  predicate Complete(doc: Document) {
    CompleteFor(doc.modes, doc.variables)
  }

  /** The key the flattener gives to mode `m` and variable `v` */
  function Key(kebab: string -> string, doc: Document, m: Mode, v: Variable): string {
    kebab(kebab(doc.name) + "-" + kebab(m.name) + "-" + v.name)
  }

  /** The token the flattener builds for mode `m` and variable `v` */
  function MakeToken(kebab: string -> string, doc: Document, m: Mode, v: Variable, file: string): Token
    requires HasValue(m, v)
  {
    var collection := kebab(doc.name);
    var modeName := kebab(m.name);
    var entry := v.resolvedValuesByMode[m.id];
    Token(Key(kebab, doc, m, v), collection, file, modeName, entry.resolvedValue, kebab(entry.aliasName.GetOr("")))
  }

  /** `t` carries exactly the fields the flattener promises for mode `m` and variable `v` */
  ghost predicate TokenOf(kebab: string -> string, doc: Document, file: string, m: Mode, v: Variable, t: Token)
    requires HasValue(m, v)
  {
    && t.name == Key(kebab, doc, m, v)
    && t.collection == kebab(doc.name)
    && t.file == file
    && t.mode == kebab(m.name)
    && t.value == v.resolvedValuesByMode[m.id].resolvedValue
    && t.alias == kebab(v.resolvedValuesByMode[m.id].aliasName.GetOr(""))
  }

  /** The tokens of one mode, one per variable, in variable order */
  function Row(kebab: string -> string, doc: Document, m: Mode, vs: seq<Variable>, file: string): (r: seq<Token>)
    requires forall j :: 0 <= j < |vs| ==> HasValue(m, vs[j])
    ensures |r| == |vs|
  {
    if |vs| == 0 then []
    else Row(kebab, doc, m, vs[..|vs| - 1], file) + [MakeToken(kebab, doc, m, vs[|vs| - 1], file)]
  }

  /** Position `j` of a mode's row holds the token of variable `j` */
  lemma {:induction false} RowAt(kebab: string -> string, doc: Document, m: Mode, vs: seq<Variable>, file: string, j: nat)
    requires forall j' :: 0 <= j' < |vs| ==> HasValue(m, vs[j'])
    requires j < |vs|
    ensures Row(kebab, doc, m, vs, file)[j] == MakeToken(kebab, doc, m, vs[j], file)
  {
    var n := |vs| - 1;
    if j < n {
      RowAt(kebab, doc, m, vs[..n], file, j);
      assert vs[..n][j] == vs[j];
    }
  }

  /** The tokens of the modes `ms`, in the flattener's visiting order: mode-major, variable-minor */
  function Entries(kebab: string -> string, doc: Document, ms: seq<Mode>, file: string): seq<Token>
    requires CompleteFor(ms, doc.variables)
  {
    if |ms| == 0 then []
    else Entries(kebab, doc, ms[..|ms| - 1], file) + Row(kebab, doc, ms[|ms| - 1], doc.variables, file)
  }

  /** Where the block of mode `i` starts in the visiting order: `i` blocks of `V` entries each */
  function Offset(i: nat, V: nat): nat {
    if i == 0 then 0 else Offset(i - 1, V) + V
  }

  lemma {:induction false} OffsetIsProduct(i: nat, V: nat)
    ensures Offset(i, V) == i * V
  {
    if i > 0 {
      OffsetIsProduct(i - 1, V);
      assert i * V == (i - 1) * V + V;
    }
  }

  /** The block of an earlier mode ends before the block of a later one begins */
  lemma {:induction false} OffsetMonotone(i: nat, i2: nat, V: nat)
    requires i < i2
    ensures Offset(i, V) + V <= Offset(i2, V)
    decreases i2
  {
    if i + 1 < i2 {
      OffsetMonotone(i, i2 - 1, V);
    }
  }

  /** Every position below `Offset(M, V)` lies in the block of one mode */
  lemma {:induction false} OffsetSplit(l: nat, M: nat, V: nat) returns (i: nat, j: nat)
    requires l < Offset(M, V)
    ensures i < M && j < V && l == Offset(i, V) + j
  {
    if l < Offset(M - 1, V) {
      i, j := OffsetSplit(l, M - 1, V);
    } else {
      i, j := M - 1, l - Offset(M - 1, V);
    }
  }

  lemma {:induction false} EntriesLength(kebab: string -> string, doc: Document, ms: seq<Mode>, file: string)
    requires CompleteFor(ms, doc.variables)
    ensures |Entries(kebab, doc, ms, file)| == Offset(|ms|, |doc.variables|)
  {
    if |ms| > 0 {
      assert CompleteFor(ms[..|ms| - 1], doc.variables);
      EntriesLength(kebab, doc, ms[..|ms| - 1], file);
    }
  }

  /** The entry at `Offset(i, |variables|) + j` is the token of mode `i` and variable `j` */
  lemma {:induction false} EntriesAt(kebab: string -> string, doc: Document, ms: seq<Mode>, file: string, i: nat, j: nat)
    requires CompleteFor(ms, doc.variables)
    requires i < |ms| && j < |doc.variables|
    ensures Offset(i, |doc.variables|) + j < |Entries(kebab, doc, ms, file)|
    ensures Entries(kebab, doc, ms, file)[Offset(i, |doc.variables|) + j] == MakeToken(kebab, doc, ms[i], doc.variables[j], file)
  {
    var n := |ms| - 1;
    var V := |doc.variables|;
    assert CompleteFor(ms[..n], doc.variables);
    var prev := Entries(kebab, doc, ms[..n], file);
    var row := Row(kebab, doc, ms[n], doc.variables, file);
    assert Entries(kebab, doc, ms, file) == prev + row;
    EntriesLength(kebab, doc, ms[..n], file);
    var x := Offset(i, V) + j;
    if i < n {
      EntriesAt(kebab, doc, ms[..n], file, i, j);
      assert ms[..n][i] == ms[i];
      assert (prev + row)[x] == prev[x];
      assert prev[x] == MakeToken(kebab, doc, ms[i], doc.variables[j], file);
    } else {
      assert x == |prev| + j;
      assert (prev + row)[x] == row[j];
      RowAt(kebab, doc, ms[n], doc.variables, file, j);
      assert row[j] == MakeToken(kebab, doc, ms[i], doc.variables[j], file);
    }
  }

  /** Storing the tokens `es` in order by plain assignment, starting from an empty object */
  function Assign(es: seq<Token>): map<string, Token>
  {
    if |es| == 0 then map[] else Assign(es[..|es| - 1])[es[|es| - 1].name := es[|es| - 1]]
  }

  /** The flattened object, defined as the ordered assignment of all entries */
  function FlatMap(kebab: string -> string, doc: Document, file: string): map<string, Token>
    requires Complete(doc)
  {
    Assign(Entries(kebab, doc, doc.modes, file))
  }

  lemma AssignSnoc(es: seq<Token>, t: Token)
    ensures Assign(es + [t]) == Assign(es)[t.name := t]
  {
    assert (es + [t])[..|es|] == es;
  }

  lemma RowSnoc(kebab: string -> string, doc: Document, m: Mode, vs: seq<Variable>, file: string, j: nat)
    requires j < |vs| && forall j' :: 0 <= j' <= j ==> HasValue(m, vs[j'])
    ensures Row(kebab, doc, m, vs[..j + 1], file) == Row(kebab, doc, m, vs[..j], file) + [MakeToken(kebab, doc, m, vs[j], file)]
  {
    assert vs[..j + 1][..j] == vs[..j];
  }

  lemma CompleteSnoc(ms: seq<Mode>, vs: seq<Variable>, i: nat)
    requires i < |ms| && CompleteFor(ms[..i], vs)
    requires forall j :: 0 <= j < |vs| ==> HasValue(ms[i], vs[j])
    ensures CompleteFor(ms[..i + 1], vs)
  {
    var ms' := ms[..i + 1];
    forall i', j | 0 <= i' < |ms'| && 0 <= j < |vs|
      ensures HasValue(ms'[i'], vs[j])
    {
      if i' < i {
        assert ms'[i'] == ms[..i][i'];
      }
    }
  }

  lemma EntriesSnoc(kebab: string -> string, doc: Document, file: string, i: nat)
    requires i < |doc.modes| && CompleteFor(doc.modes[..i + 1], doc.variables)
    ensures CompleteFor(doc.modes[..i], doc.variables)
    ensures Entries(kebab, doc, doc.modes[..i + 1], file) ==
              Entries(kebab, doc, doc.modes[..i], file) + Row(kebab, doc, doc.modes[i], doc.variables, file)
  {
    assert doc.modes[..i + 1][..i] == doc.modes[..i];
  }

  /** Storing the token of variable `j` extends the assignment of the mode's row by one variable */
  lemma AssignNextVariable(kebab: string -> string, doc: Document, m: Mode, file: string, es: seq<Token>, j: nat)
    requires j < |doc.variables| && forall j' :: 0 <= j' <= j ==> HasValue(m, doc.variables[j'])
    ensures var t := MakeToken(kebab, doc, m, doc.variables[j], file);
            Assign(es + Row(kebab, doc, m, doc.variables[..j], file))[t.name := t] ==
            Assign(es + Row(kebab, doc, m, doc.variables[..j + 1], file))
  {
    var vs := doc.variables;
    var t := MakeToken(kebab, doc, m, vs[j], file);
    RowSnoc(kebab, doc, m, vs, file, j);
    assert es + Row(kebab, doc, m, vs[..j + 1], file) == (es + Row(kebab, doc, m, vs[..j], file)) + [t];
    AssignSnoc(es + Row(kebab, doc, m, vs[..j], file), t);
  }

  /**
   * The inner loop of the flattener: one mode, every variable in order, each
   * token stored over `acc`, which holds the assignment of the entries `es`.
   */
  method FlattenMode(kebab: string -> string, doc: Document, m: Mode, file: string,
                     acc: map<string, Token>, ghost es: seq<Token>)
    returns (r: Result<map<string, Token>, FlattenError>)
    requires acc == Assign(es)
    ensures r.Success? <==> forall j :: 0 <= j < |doc.variables| ==> HasValue(m, doc.variables[j])
    ensures r.Success? ==> r.value == Assign(es + Row(kebab, doc, m, doc.variables, file))
    ensures r.Failure? ==>
              r.error.modeId == m.id &&
              exists j :: 0 <= j < |doc.variables| && doc.variables[j].name == r.error.variable &&
                !HasValue(m, doc.variables[j])
  {
    var styleDictionary := acc;
    var collection := kebab(doc.name);
    var modeName := kebab(m.name);
    var vs := doc.variables;
    var j := 0;
    assert es + Row(kebab, doc, m, vs[..0], file) == es;
    while j < |vs|
      invariant 0 <= j <= |vs|
      invariant forall j' :: 0 <= j' < j ==> HasValue(m, vs[j'])
      invariant styleDictionary == Assign(es + Row(kebab, doc, m, vs[..j], file))
    {
      var v := vs[j];
      if m.id !in v.resolvedValuesByMode {
        return Failure(MissingModeValue(m.id, v.name));
      }
      var entry := v.resolvedValuesByMode[m.id];
      var newVarName := kebab(collection + "-" + modeName + "-" + v.name);
      var token := Token(newVarName, collection, file, modeName,
                         entry.resolvedValue, kebab(entry.aliasName.GetOr("")));
      assert token == MakeToken(kebab, doc, m, v, file);
      AssignNextVariable(kebab, doc, m, file, es, j);
      styleDictionary := styleDictionary[newVarName := token];
      j := j + 1;
    }
    assert vs[..j] == vs;
    return Success(styleDictionary);
  }

  /** `toStyleDictionaryFormat(inputJson, filePath)` */
  method ToStyleDictionaryFormat(kebab: string -> string, doc: Document, file: string)
    returns (r: Result<map<string, Token>, FlattenError>)
    ensures r.Success? <==> Complete(doc)
    ensures r.Success? ==> Complete(doc) && r.value == FlatMap(kebab, doc, file)
    ensures r.Failure? ==>
              exists i, j :: 0 <= i < |doc.modes| && 0 <= j < |doc.variables| &&
                doc.modes[i].id == r.error.modeId && doc.variables[j].name == r.error.variable &&
                !HasValue(doc.modes[i], doc.variables[j])
  {
    var styleDictionary: map<string, Token> := map[];
    var i := 0;
    while i < |doc.modes|
      invariant 0 <= i <= |doc.modes|
      invariant CompleteFor(doc.modes[..i], doc.variables)
      invariant styleDictionary == Assign(Entries(kebab, doc, doc.modes[..i], file))
    {
      var m := doc.modes[i];
      var step := FlattenMode(kebab, doc, m, file, styleDictionary, Entries(kebab, doc, doc.modes[..i], file));
      if step.Failure? {
        ghost var j :| 0 <= j < |doc.variables| && doc.variables[j].name == step.error.variable &&
                       !HasValue(m, doc.variables[j]);
        assert !Complete(doc);
        return Failure(step.error);
      }
      CompleteSnoc(doc.modes, doc.variables, i);
      EntriesSnoc(kebab, doc, file, i);
      styleDictionary := step.value;
      i := i + 1;
    }
    assert doc.modes[..i] == doc.modes;
    return Success(styleDictionary);
  }

  /** All names of `es` are pairwise different */
  ghost predicate NamesDistinct(es: seq<Token>) {
    forall a, b :: 0 <= a < b < |es| ==> es[a].name != es[b].name
  }

  /** The keys of the stored object are exactly the names of the tokens assigned */
  lemma {:induction false} AssignDomain(es: seq<Token>)
    ensures forall k :: k in Assign(es) <==> exists i :: 0 <= i < |es| && es[i].name == k
  {
    if |es| > 0 {
      var prefix := es[..|es| - 1];
      AssignDomain(prefix);
      assert forall i :: 0 <= i < |prefix| ==> prefix[i] == es[i];
    }
  }

  /** Every stored token is one of the tokens assigned, and sits under its own name */
  lemma {:induction false} AssignValues(es: seq<Token>)
    ensures forall k :: k in Assign(es) ==> Assign(es)[k].name == k && Assign(es)[k] in es
  {
    if |es| > 0 {
      AssignValues(es[..|es| - 1]);
    }
  }

  /** A token no later token shares a name with is the one stored under its name */
  lemma {:induction false} AssignLast(es: seq<Token>, i: nat)
    requires i < |es|
    requires forall l :: i < l < |es| ==> es[l].name != es[i].name
    ensures es[i].name in Assign(es) && Assign(es)[es[i].name] == es[i]
  {
    if i < |es| - 1 {
      var prefix := es[..|es| - 1];
      assert forall l :: i < l < |prefix| ==> prefix[l] == es[l];
      AssignLast(prefix, i);
    }
  }

  /** One stored token per assigned token at most, and exactly one each when the names are distinct */
  lemma {:induction false} AssignSize(es: seq<Token>)
    ensures |Assign(es)| <= |es|
    ensures |Assign(es)| == |es| <==> NamesDistinct(es)
  {
    if |es| > 0 {
      var prefix := es[..|es| - 1];
      var t := es[|es| - 1];
      AssignSize(prefix);
      AssignDomain(prefix);
      assert forall a :: 0 <= a < |prefix| ==> prefix[a] == es[a];
      if t.name in Assign(prefix) {
        var a :| 0 <= a < |prefix| && prefix[a].name == t.name;
        assert es[a].name == es[|es| - 1].name;
      } else if NamesDistinct(prefix) {
        assert NamesDistinct(es);
      } else {
        var a, b :| 0 <= a < b < |prefix| && prefix[a].name == prefix[b].name;
        assert es[a].name == es[b].name;
      }
    }
  }

  /** Positions of the visiting order compare as their (mode, variable) pairs do, lexicographically */
  lemma PairOrder(i: nat, j: nat, i2: nat, j2: nat, V: nat)
    requires j < V && j2 < V
    ensures Offset(i, V) + j < Offset(i2, V) + j2 <==> i < i2 || (i == i2 && j < j2)
  {
    if i < i2 {
      OffsetMonotone(i, i2, V);
    } else if i2 < i {
      OffsetMonotone(i2, i, V);
    }
  }

  /** Every entry is the token of some mode and some variable */
  lemma {:induction false} EntriesFrom(kebab: string -> string, doc: Document, ms: seq<Mode>, file: string, t: Token)
    requires CompleteFor(ms, doc.variables)
    requires t in Entries(kebab, doc, ms, file)
    ensures exists i, j :: 0 <= i < |ms| && 0 <= j < |doc.variables| &&
              HasValue(ms[i], doc.variables[j]) && TokenOf(kebab, doc, file, ms[i], doc.variables[j], t)
  {
    var n := |ms| - 1;
    var prev := Entries(kebab, doc, ms[..n], file);
    var row := Row(kebab, doc, ms[n], doc.variables, file);
    assert Entries(kebab, doc, ms, file) == prev + row;
    if t in prev {
      assert CompleteFor(ms[..n], doc.variables);
      EntriesFrom(kebab, doc, ms[..n], file, t);
      var i, j :| 0 <= i < n && 0 <= j < |doc.variables| &&
                  HasValue(ms[..n][i], doc.variables[j]) && TokenOf(kebab, doc, file, ms[..n][i], doc.variables[j], t);
      assert ms[..n][i] == ms[i];
    } else {
      var j :| 0 <= j < |row| && row[j] == t;
      RowAt(kebab, doc, ms[n], doc.variables, file, j);
      assert TokenOf(kebab, doc, file, ms[n], doc.variables[j], t);
    }
  }

  /** Every entry of the flattened object sits under its own name and is the token of a mode and a variable */
  lemma FlatMapEntry(kebab: string -> string, doc: Document, file: string, k: string)
    requires Complete(doc)
    requires k in FlatMap(kebab, doc, file)
    ensures FlatMap(kebab, doc, file)[k].name == k
    ensures exists i, j :: 0 <= i < |doc.modes| && 0 <= j < |doc.variables| &&
              HasValue(doc.modes[i], doc.variables[j]) &&
              TokenOf(kebab, doc, file, doc.modes[i], doc.variables[j], FlatMap(kebab, doc, file)[k])
  {
    AssignValues(Entries(kebab, doc, doc.modes, file));
    EntriesFrom(kebab, doc, doc.modes, file, FlatMap(kebab, doc, file)[k]);
  }

  /** Pair (i2, j2) is visited after pair (i, j) */
  predicate Later(i: int, j: int, i2: int, j2: int) {
    i < i2 || (i == i2 && j < j2)
  }

  /** No pair visited after (i, j) produces the key of (i, j) */
  ghost predicate LastWriter(kebab: string -> string, doc: Document, i: nat, j: nat)
    requires i < |doc.modes| && j < |doc.variables|
  {
    forall i2, j2 :: 0 <= i2 < |doc.modes| && 0 <= j2 < |doc.variables| && Later(i, j, i2, j2) ==>
      Key(kebab, doc, doc.modes[i2], doc.variables[j2]) != Key(kebab, doc, doc.modes[i], doc.variables[j])
  }

  /** Last write wins: the entry under a key holds the data of the last pair that produced it */
  lemma FlatMapLastWriteWins(kebab: string -> string, doc: Document, file: string, i: nat, j: nat)
    requires Complete(doc)
    requires i < |doc.modes| && j < |doc.variables|
    requires LastWriter(kebab, doc, i, j)
    ensures Key(kebab, doc, doc.modes[i], doc.variables[j]) in FlatMap(kebab, doc, file)
    ensures TokenOf(kebab, doc, file, doc.modes[i], doc.variables[j],
                    FlatMap(kebab, doc, file)[Key(kebab, doc, doc.modes[i], doc.variables[j])])
  {
    var es := Entries(kebab, doc, doc.modes, file);
    var M, V := |doc.modes|, |doc.variables|;
    var idx := Offset(i, V) + j;
    EntriesAt(kebab, doc, doc.modes, file, i, j);
    forall l | idx < l < |es|
      ensures es[l].name != es[idx].name
    {
      var i2, j2 := EntryAtPosition(kebab, doc, file, l);
      PairOrder(i, j, i2, j2, V);
      assert Later(i, j, i2, j2);
    }
    AssignLast(es, idx);
  }

  /** Distinct (mode, variable) pairs produce distinct keys */
  ghost predicate DistinctKeys(kebab: string -> string, doc: Document) {
    forall i1, j1, i2, j2 ::
      0 <= i1 < |doc.modes| && 0 <= j1 < |doc.variables| &&
      0 <= i2 < |doc.modes| && 0 <= j2 < |doc.variables| && (i1 != i2 || j1 != j2) ==>
      Key(kebab, doc, doc.modes[i1], doc.variables[j1]) != Key(kebab, doc, doc.modes[i2], doc.variables[j2])
  }

  lemma PairKeysDiffer(kebab: string -> string, doc: Document, file: string, i1: nat, j1: nat, i2: nat, j2: nat)
    requires Complete(doc) && NamesDistinct(Entries(kebab, doc, doc.modes, file))
    requires i1 < |doc.modes| && j1 < |doc.variables| && i2 < |doc.modes| && j2 < |doc.variables|
    requires i1 != i2 || j1 != j2
    ensures Key(kebab, doc, doc.modes[i1], doc.variables[j1]) != Key(kebab, doc, doc.modes[i2], doc.variables[j2])
  {
    var es := Entries(kebab, doc, doc.modes, file);
    var V := |doc.variables|;
    var x, y := Offset(i1, V) + j1, Offset(i2, V) + j2;
    EntriesAt(kebab, doc, doc.modes, file, i1, j1);
    EntriesAt(kebab, doc, doc.modes, file, i2, j2);
    PairOrder(i1, j1, i2, j2, V);
    PairOrder(i2, j2, i1, j1, V);
    assert x != y;
    if x < y {
      assert es[x].name != es[y].name;
    } else {
      assert es[y].name != es[x].name;
    }
  }

  /** Every position of the visiting order holds the token of one (mode, variable) pair */
  lemma EntryAtPosition(kebab: string -> string, doc: Document, file: string, l: nat) returns (i: nat, j: nat)
    requires Complete(doc)
    requires l < |Entries(kebab, doc, doc.modes, file)|
    ensures i < |doc.modes| && j < |doc.variables| && l == Offset(i, |doc.variables|) + j
    ensures Entries(kebab, doc, doc.modes, file)[l] == MakeToken(kebab, doc, doc.modes[i], doc.variables[j], file)
  {
    EntriesLength(kebab, doc, doc.modes, file);
    i, j := OffsetSplit(l, |doc.modes|, |doc.variables|);
    EntriesAt(kebab, doc, doc.modes, file, i, j);
  }

  lemma SharedNameSharedKey(kebab: string -> string, doc: Document, file: string, a: nat, b: nat)
    returns (ia: nat, ja: nat, ib: nat, jb: nat)
    requires Complete(doc)
    requires a < b < |Entries(kebab, doc, doc.modes, file)|
    requires Entries(kebab, doc, doc.modes, file)[a].name == Entries(kebab, doc, doc.modes, file)[b].name
    ensures ia < |doc.modes| && ja < |doc.variables| && ib < |doc.modes| && jb < |doc.variables|
    ensures ia != ib || ja != jb
    ensures Key(kebab, doc, doc.modes[ia], doc.variables[ja]) == Key(kebab, doc, doc.modes[ib], doc.variables[jb])
  {
    ia, ja := EntryAtPosition(kebab, doc, file, a);
    ib, jb := EntryAtPosition(kebab, doc, file, b);
  }

  /** At most |modes| * |variables| entries, with equality exactly when all keys are distinct */
  lemma FlatMapSize(kebab: string -> string, doc: Document, file: string)
    requires Complete(doc)
    ensures |FlatMap(kebab, doc, file)| <= |doc.modes| * |doc.variables|
    ensures |FlatMap(kebab, doc, file)| == |doc.modes| * |doc.variables| <==> DistinctKeys(kebab, doc)
  {
    var es := Entries(kebab, doc, doc.modes, file);
    AssignSize(es);
    EntriesLength(kebab, doc, doc.modes, file);
    OffsetIsProduct(|doc.modes|, |doc.variables|);
    if NamesDistinct(es) {
      forall i1, j1, i2, j2 |
        0 <= i1 < |doc.modes| && 0 <= j1 < |doc.variables| &&
        0 <= i2 < |doc.modes| && 0 <= j2 < |doc.variables| && (i1 != i2 || j1 != j2)
        ensures Key(kebab, doc, doc.modes[i1], doc.variables[j1]) != Key(kebab, doc, doc.modes[i2], doc.variables[j2])
      {
        PairKeysDiffer(kebab, doc, file, i1, j1, i2, j2);
      }
    } else {
      var a, b :| 0 <= a < b < |es| && es[a].name == es[b].name;
      var ia, ja, ib, jb := SharedNameSharedKey(kebab, doc, file, a, b);
      assert !DistinctKeys(kebab, doc);
    }
  }

  /** Two variables of the same name under one mode collapse into one entry holding the later one's value */
  lemma CollisionScenario(kebab: string -> string, file: string, name: string, m: Mode, x: Variable, y: Variable)
    requires x.name == y.name && HasValue(m, x) && HasValue(m, y)
    ensures var doc := Document(name, [m], [x, y]);
            var fm := FlatMap(kebab, doc, file);
            |fm| == 1 && Key(kebab, doc, m, y) in fm &&
            fm[Key(kebab, doc, m, y)].value == y.resolvedValuesByMode[m.id].resolvedValue
  {
    var doc := Document(name, [m], [x, y]);
    assert Complete(doc);
    FlatMapLastWriteWins(kebab, doc, file, 0, 1);
    FlatMapSize(kebab, doc, file);
    assert !DistinctKeys(kebab, doc) by {
      assert Key(kebab, doc, doc.modes[0], doc.variables[0]) == Key(kebab, doc, doc.modes[0], doc.variables[1]);
    }
  }
}
