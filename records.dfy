/** The consolidated values of one property list (`CMake.String`) and the
    two class methods that maintain such a list: `_get`, which finds a
    value or appends a fresh record for it, and `_add_values`, which
    attributes languages and a provenance comment to a batch of values. */
module Records {
  import opened Types

  /** One consolidated value: the string, the languages it was declared
      for, whether it is common to every used language, and the comment
      to write on the line before it. Two records are the same entry when
      their strings are equal (`String.__eq__`). */
  datatype StringRec = StringRec(value: string, languages: set<Language>, common: bool, comment: Option<string>)

  /** The record `_get` creates for a value seen for the first time. */
  function Blank(v: string): StringRec {
    StringRec(v, {}, false, None)
  }

  /** The strings of a list of records, in list order. */
  function Values(lst: seq<StringRec>): (vs: seq<string>)
    ensures |vs| == |lst|
    ensures forall i :: 0 <= i < |lst| ==> vs[i] == lst[i].value
  {
    seq(|lst|, i requires 0 <= i < |lst| => lst[i].value)
  }

  /** No string occurs twice. */
  ghost predicate Unique(vs: seq<string>) {
    forall i, j :: 0 <= i < j < |vs| ==> vs[i] != vs[j]
  }

  // ---------------------------------------------------------------------
  // _get
  // ---------------------------------------------------------------------

  /** The first position of `v` (`lst.index(v)`), or None when `lst.index`
      would raise ValueError. */
  function Find(lst: seq<StringRec>, v: string): (r: Option<nat>)
    ensures r.Some? ==> r.value < |lst| && lst[r.value].value == v
    ensures r.Some? ==> forall j :: 0 <= j < r.value ==> lst[j].value != v
    ensures r.None? <==> v !in Values(lst)
  {
    if lst == [] then None
    else if lst[0].value == v then Some(0)
    else match Find(lst[1..], v)
      case None => None
      case Some(k) => Some(k + 1)
  }

  /** `CMake._get`: the position of the record for `v`, appending a blank
      record at the end when there is none. */
  method Get(lst: seq<StringRec>, v: string) returns (lst': seq<StringRec>, i: nat)
    ensures i < |lst'| && lst'[i].value == v
    ensures v in Values(lst) ==> lst' == lst && forall j :: 0 <= j < i ==> lst[j].value != v
    ensures v !in Values(lst) ==> lst' == lst + [Blank(v)] && i == |lst|
  {
    i := 0;
    while i < |lst| && lst[i].value != v
      invariant 0 <= i <= |lst|
      invariant forall j :: 0 <= j < i ==> lst[j].value != v
    {
      i := i + 1;
    }
    if i < |lst| {
      lst' := lst;
    } else {
      lst' := lst + [Blank(v)];
    }
  }

  // ---------------------------------------------------------------------
  // _add_values
  // ---------------------------------------------------------------------

  /** The record after one value of a batch reached it: the batch's
      languages joined in, and the comment, if this value carries one,
      written over the old one. */
  function Touch(rec: StringRec, languages: set<Language>, comment: Option<string>): StringRec {
    rec.(comment := if comment.Some? then comment else rec.comment,
         languages := rec.languages + languages)
  }

  /** One value of a batch applied to the list. */
  function AddOne(lst: seq<StringRec>, v: string, languages: set<Language>, comment: Option<string>): seq<StringRec> {
    match Find(lst, v)
    case Some(i) => lst[i := Touch(lst[i], languages, comment)]
    case None => lst + [Touch(Blank(v), languages, comment)]
  }

  /** A whole batch applied to the list, front to back; only the first
      value of the batch receives the comment. */
  function AddAll(lst: seq<StringRec>, vs: seq<string>, languages: set<Language>, comment: Option<string>): seq<StringRec>
    decreases |vs|
  {
    if vs == [] then lst
    else AddAll(AddOne(lst, vs[0], languages, comment), vs[1..], languages, None)
  }

  /** `CMake._add_values`. */
  method AddValues(lst: seq<StringRec>, vs: seq<string>, languages: set<Language>, comment: Option<string>)
    returns (r: seq<StringRec>)
    ensures r == AddAll(lst, vs, languages, comment)
  {
    r := lst;
    var c := comment;
    var k := 0;
    while k < |vs|
      invariant 0 <= k <= |vs|
      invariant c == if k == 0 then comment else None
      invariant AddAll(r, vs[k..], languages, c) == AddAll(lst, vs, languages, comment)
    {
      var w, i := Get(r, vs[k]);
      AddValuesStep(r, vs, k, w, i, languages, c);
      var obj;
      obj, c := Update(w[i], languages, c);
      r := w[i := obj];
      k := k + 1;
    }
  }

  /** The body of the loop of `_add_values` for the record `_get` returned:
      the comment, if still pending, is written and then dropped; the
      languages, if any, are joined in. */
  method Update(obj: StringRec, languages: set<Language>, comment: Option<string>)
    returns (obj': StringRec, comment': Option<string>)
    ensures obj' == Touch(obj, languages, comment) && comment' == None
  {
    obj', comment' := obj, comment;
    if comment'.Some? {
      // Add comment to the first value only
      obj' := obj'.(comment := comment');
      comment' := None;
    }
    if languages != {} {
      obj' := obj'.(languages := obj'.languages + languages);
    }
  }

  /** One turn of the loop of `_add_values` applies the batch's next value. */
  lemma AddValuesStep(r: seq<StringRec>, vs: seq<string>, k: nat, w: seq<StringRec>, i: nat,
                      languages: set<Language>, comment: Option<string>)
    requires k < |vs| && i < |w| && w[i].value == vs[k]
    requires vs[k] in Values(r) ==> w == r && forall j :: 0 <= j < i ==> r[j].value != vs[k]
    requires vs[k] !in Values(r) ==> w == r + [Blank(vs[k])] && i == |r|
    ensures AddAll(w[i := Touch(w[i], languages, comment)], vs[k + 1..], languages, None)
      == AddAll(r, vs[k..], languages, comment)
  {
    GetFinds(r, vs[k], w, i, languages, comment);
    AddAllStep(r, vs[k..], languages, comment);
    assert vs[k..][0] == vs[k] && vs[k..][1..] == vs[k + 1..];
  }

  /** Applying one value at the position `_get` reported is `AddOne`. */
  lemma GetFinds(lst: seq<StringRec>, v: string, lst': seq<StringRec>, i: nat, languages: set<Language>, comment: Option<string>)
    requires i < |lst'| && lst'[i].value == v
    requires v in Values(lst) ==> lst' == lst && forall j :: 0 <= j < i ==> lst[j].value != v
    requires v !in Values(lst) ==> lst' == lst + [Blank(v)] && i == |lst|
    ensures lst'[i := Touch(lst'[i], languages, comment)] == AddOne(lst, v, languages, comment)
  {
    if v in Values(lst) {
      assert Find(lst, v) == Some(i);
    }
  }

  lemma AddAllStep(lst: seq<StringRec>, vs: seq<string>, languages: set<Language>, comment: Option<string>)
    requires vs != []
    ensures AddAll(lst, vs, languages, comment) == AddAll(AddOne(lst, vs[0], languages, comment), vs[1..], languages, None)
  {
  }

  // ---------------------------------------------------------------------
  // What a batch does to the list
  // ---------------------------------------------------------------------

  /** The values of `vs` not in `seen`, each once, in order of first occurrence. */
  function Fresh(seen: seq<string>, vs: seq<string>): seq<string>
    decreases |vs|
  {
    if vs == [] then []
    else if vs[0] in seen then Fresh(seen, vs[1..])
    else [vs[0]] + Fresh(seen + [vs[0]], vs[1..])
  }

  /** The record at position `i` before the batch, or the blank record a
      new position starts from. */
  function Before(lst: seq<StringRec>, i: nat, v: string): StringRec {
    if i < |lst| then lst[i] else Blank(v)
  }

  /** Existing records keep their positions, and the values new to the list
      are appended in the order the batch first names them. */
  lemma {:induction false} AddAllValues(lst: seq<StringRec>, vs: seq<string>, languages: set<Language>, comment: Option<string>)
    ensures Values(AddAll(lst, vs, languages, comment)) == Values(lst) + Fresh(Values(lst), vs)
    decreases |vs|
  {
    if vs != [] {
      var lst1 := AddOne(lst, vs[0], languages, comment);
      AddAllValues(lst1, vs[1..], languages, None);
      AddOneValues(lst, vs[0], languages, comment);
    }
  }

  /** One value adds its string at the end when it is new, and nothing otherwise. */
  lemma AddOneValues(lst: seq<StringRec>, v: string, languages: set<Language>, comment: Option<string>)
    ensures Values(AddOne(lst, v, languages, comment)) == if v in Values(lst) then Values(lst) else Values(lst) + [v]
  {
    var lst1 := AddOne(lst, v, languages, comment);
    if v in Values(lst) {
      assert Values(lst1) == Values(lst);
    } else {
      assert Values(lst1) == Values(lst) + [v];
    }
  }

  /** A list without repeated values keeps that property after a batch. */
  lemma {:induction false} FreshKeepsUnique(seen: seq<string>, vs: seq<string>)
    requires Unique(seen)
    ensures Unique(seen + Fresh(seen, vs))
    ensures forall v :: v in seen + Fresh(seen, vs) <==> v in seen || v in vs
    decreases |vs|
  {
    if vs != [] {
      assert vs == [vs[0]] + vs[1..];
      if vs[0] in seen {
        FreshKeepsUnique(seen, vs[1..]);
        assert Fresh(seen, vs) == Fresh(seen, vs[1..]);
      } else {
        var seen1 := seen + [vs[0]];
        assert Unique(seen1) by {
          forall i, j | 0 <= i < j < |seen1|
            ensures seen1[i] != seen1[j]
          {
            if j == |seen| {
              assert seen1[i] == seen[i];
            }
          }
        }
        FreshKeepsUnique(seen1, vs[1..]);
        assert seen + Fresh(seen, vs) == seen1 + Fresh(seen1, vs[1..]);
      }
    }
  }

  /** After any batch each value occurs at most once in the list, and the
      list holds exactly the old values and the batch's values. */
  lemma AddAllUnique(lst: seq<StringRec>, vs: seq<string>, languages: set<Language>, comment: Option<string>)
    requires Unique(Values(lst))
    ensures Unique(Values(AddAll(lst, vs, languages, comment)))
    ensures forall v :: v in Values(AddAll(lst, vs, languages, comment)) <==> v in Values(lst) || v in vs
  {
    AddAllValues(lst, vs, languages, comment);
    FreshKeepsUnique(Values(lst), vs);
  }

  /** The record a batch makes of `b`: the batch's languages joined in when
      the batch names it, and the batch's comment written over the old one
      when it is the batch's first value. */
  function Outcome(b: StringRec, vs: seq<string>, languages: set<Language>, comment: Option<string>): StringRec {
    b.(languages := b.languages + (if b.value in vs then languages else {}),
       comment := if comment.Some? && vs != [] && b.value == vs[0] then comment else b.comment)
  }

  /** `r` is what the batch makes of `lst`, record by record: positions are
      kept, and each record, old or new, is the outcome of its state before
      the batch. Nothing else changes; in particular the common flag. */
  ghost predicate BatchOutcome(lst: seq<StringRec>, r: seq<StringRec>, vs: seq<string>, languages: set<Language>, comment: Option<string>) {
    && |lst| <= |r|
    && (forall i :: 0 <= i < |lst| ==> r[i].value == lst[i].value)
    && (forall i :: 0 <= i < |r| ==> r[i] == Outcome(Before(lst, i, r[i].value), vs, languages, comment))
  }

  lemma AddOneOutcome(lst: seq<StringRec>, v: string, languages: set<Language>, comment: Option<string>)
    requires Unique(Values(lst))
    ensures BatchOutcome(lst, AddOne(lst, v, languages, comment), [v], languages, comment)
  {
    var r := AddOne(lst, v, languages, comment);
    var vs := Values(lst);
    match Find(lst, v)
    case Some(j) =>
      forall i | 0 <= i < |r|
        ensures r[i] == Outcome(Before(lst, i, r[i].value), [v], languages, comment)
      {
        if i != j {
          assert vs[i] != vs[j];
        }
      }
    case None =>
      forall i | 0 <= i < |r|
        ensures r[i] == Outcome(Before(lst, i, r[i].value), [v], languages, comment)
      {
        if i < |lst| {
          assert vs[i] == lst[i].value;
        }
      }
  }

  /** The outcome of a batch is the outcome of its first value followed by
      the outcome of the rest without the comment. */
  lemma OutcomeSplit(b: StringRec, vs: seq<string>, languages: set<Language>, comment: Option<string>)
    requires vs != []
    ensures Outcome(b, vs, languages, comment) == Outcome(Outcome(b, [vs[0]], languages, comment), vs[1..], languages, None)
  {
    assert b.value in vs <==> b.value == vs[0] || b.value in vs[1..];
  }

  /** The record-by-record outcome of a batch on a list without repeated
      values: a record's languages are its old languages plus the batch's
      when the batch names it, its common flag is untouched, and its comment
      is replaced exactly when it is the first value of a batch that has a
      comment. Records the batch does not name stay as they were. */
  lemma {:induction false} AddAllOutcome(lst: seq<StringRec>, vs: seq<string>, languages: set<Language>, comment: Option<string>)
    requires Unique(Values(lst))
    ensures BatchOutcome(lst, AddAll(lst, vs, languages, comment), vs, languages, comment)
    decreases |vs|
  {
    if vs != [] {
      var lst1 := AddOne(lst, vs[0], languages, comment);
      AddOneOutcome(lst, vs[0], languages, comment);
      AddAllUnique(lst, [vs[0]], languages, comment);
      assert lst1 == AddAll(lst, [vs[0]], languages, comment);
      AddAllOutcome(lst1, vs[1..], languages, None);
      var r := AddAll(lst1, vs[1..], languages, None);
      AddAllUnique(lst1, vs[1..], languages, None);
      forall i | 0 <= i < |r|
        ensures r[i] == Outcome(Before(lst, i, r[i].value), vs, languages, comment)
      {
        OutcomeStepAt(lst, lst1, r, vs, languages, comment, i);
      }
    }
  }

  /** One position of the induction step of `AddAllOutcome`. */
  lemma OutcomeStepAt(lst: seq<StringRec>, lst1: seq<StringRec>, r: seq<StringRec>, vs: seq<string>,
                      languages: set<Language>, comment: Option<string>, i: nat)
    requires vs != [] && vs[0] in Values(lst1) && Unique(Values(r))
    requires BatchOutcome(lst, lst1, [vs[0]], languages, comment)
    requires BatchOutcome(lst1, r, vs[1..], languages, None)
    requires i < |r|
    ensures r[i] == Outcome(Before(lst, i, r[i].value), vs, languages, comment)
  {
    var v := r[i].value;
    if i >= |lst1| {
      var j :| 0 <= j < |lst1| && Values(lst1)[j] == vs[0];
      assert Values(r)[j] == vs[0];
      assert v != vs[0];
    } else {
      assert lst1[i].value == v;
    }
    assert Before(lst1, i, v) == Outcome(Before(lst, i, v), [vs[0]], languages, comment);
    OutcomeSplit(Before(lst, i, v), vs, languages, comment);
  }

  /** The languages of a record never shrink, and a batch with languages
      leaves every value it names attributed to all of them. */
  lemma AddAllMonotone(lst: seq<StringRec>, vs: seq<string>, languages: set<Language>, comment: Option<string>)
    requires Unique(Values(lst))
    ensures var r := AddAll(lst, vs, languages, comment);
      && |lst| <= |r|
      && (forall i :: 0 <= i < |lst| ==> lst[i].languages <= r[i].languages)
      && (forall i :: 0 <= i < |r| && r[i].value in vs ==> languages <= r[i].languages)
  {
    AddAllOutcome(lst, vs, languages, comment);
  }

  /** A record the batch does not name is left exactly as it was. */
  lemma AddAllFrame(lst: seq<StringRec>, vs: seq<string>, languages: set<Language>, comment: Option<string>, i: nat)
    requires Unique(Values(lst))
    requires i < |lst| && lst[i].value !in vs
    ensures i < |AddAll(lst, vs, languages, comment)| && AddAll(lst, vs, languages, comment)[i] == lst[i]
  {
    AddAllOutcome(lst, vs, languages, comment);
  }

  /** Adding "x" for C with comment "first" and then for assembler with
      comment "second" leaves one record for "x", attributed to both, with
      the later comment: an existing comment is overwritten. */
  lemma CommentOverwriteExample()
    ensures var r := AddAll(AddAll([], ["x"], {C}, Some("first")), ["x"], {Asm}, Some("second"));
      r == [StringRec("x", {C, Asm}, false, Some("second"))]
  {
    var r1 := [StringRec("x", {C}, false, Some("first"))];
    SingleBatch([], "x", {C}, Some("first"));
    assert Find([], "x") == None;
    assert {} + {C} == {C};
    assert Touch(Blank("x"), {C}, Some("first")) == r1[0];
    SingleBatch(r1, "x", {Asm}, Some("second"));
    assert Find(r1, "x") == Some(0);
    assert {C} + {Asm} == {C, Asm};
  }

  /** A batch of one value is that value applied. */
  lemma SingleBatch(lst: seq<StringRec>, v: string, languages: set<Language>, comment: Option<string>)
    ensures AddAll(lst, [v], languages, comment) == AddOne(lst, v, languages, comment)
  {
    assert [v][1..] == [];
  }
}
