/** The breaker catalogue `breaker_types`: an insertion-ordered dictionary from
    model number to description. It is extended from spreadsheet rows, searched
    case-insensitively by the component popup, and listed as "desc (model)",
    from which the chosen entry is read back. */
module Catalog {
  import opened Wrappers
  import opened Text

  datatype Breaker = Breaker(model: string, desc: string)

  /** The dictionary's keys are distinct. */
  predicate KeysDistinct(cat: seq<Breaker>) {
    forall i, j :: 0 <= i < j < |cat| ==> cat[i].model != cat[j].model
  }

  predicate HasModel(cat: seq<Breaker>, model: string) {
    exists i :: 0 <= i < |cat| && cat[i].model == model
  }

  // ---------------------------------------------------------------- import

  /** One spreadsheet row of `load_breaker_excel`: model and description are
      stripped, and the row is added only when the model is non-empty and not
      in the catalogue yet. */
  function ImportRow(cat: seq<Breaker>, row: (string, string)): (r: seq<Breaker>)
    ensures r == cat || r == cat + [Breaker(Strip(row.0), Strip(row.1))]
    ensures r != cat <==> Strip(row.0) != [] && !HasModel(cat, Strip(row.0))
    ensures Strip(row.0) != [] ==> HasModel(r, Strip(row.0))
  {
    var model := Strip(row.0);
    var desc := Strip(row.1);
    if model != [] && !HasModel(cat, model) then
      var r := cat + [Breaker(model, desc)];
      assert r[|cat|].model == model;
      r
    else cat
  }

  /** All rows, in order; the count is what "Added N new breaker types" reports. */
  function ImportRows(cat: seq<Breaker>, rows: seq<(string, string)>): (r: (seq<Breaker>, nat))
    ensures r.1 <= |rows|
    decreases |rows|
  {
    if rows == [] then (cat, 0)
    else
      var init := rows[..|rows| - 1];
      var prev := ImportRows(cat, init);
      var next := ImportRow(prev.0, rows[|rows| - 1]);
      var added: nat := if next == prev.0 then prev.1 else prev.1 + 1;
      assert |init| + 1 == |rows|;
      (next, added)
  }

  /** Importing never changes or reorders an existing entry, so the first
      description seen for a model wins; the count is exactly the number of
      entries appended. */
  lemma {:induction false} ImportRowsExtends(cat: seq<Breaker>, rows: seq<(string, string)>)
    ensures var (r, added) := ImportRows(cat, rows);
            |r| == |cat| + added && r[..|cat|] == cat
    decreases |rows|
  {
    if rows != [] {
      ImportRowsExtends(cat, rows[..|rows| - 1]);
    }
  }

  /** The models stay distinct. */
  lemma {:induction false} ImportRowsDistinct(cat: seq<Breaker>, rows: seq<(string, string)>)
    requires KeysDistinct(cat)
    ensures KeysDistinct(ImportRows(cat, rows).0)
    decreases |rows|
  {
    if rows != [] {
      var n := |rows| - 1;
      ImportRowsDistinct(cat, rows[..n]);
      var prev := ImportRows(cat, rows[..n]).0;
      var next := ImportRow(prev, rows[n]);
      if next != prev {
        forall i, j | 0 <= i < j < |next| ensures next[i].model != next[j].model {
          if j == |prev| {
            assert next[i] == prev[i];
          } else {
            assert next[i] == prev[i] && next[j] == prev[j];
          }
        }
      }
    }
  }

  /** Every row with a non-empty model ends up in the catalogue. */
  lemma {:induction false} ImportRowsComplete(cat: seq<Breaker>, rows: seq<(string, string)>)
    ensures forall i :: 0 <= i < |rows| && Strip(rows[i].0) != [] ==>
      HasModel(ImportRows(cat, rows).0, Strip(rows[i].0))
    decreases |rows|
  {
    if rows != [] {
      var n := |rows| - 1;
      var front := rows[..n];
      ImportRowsComplete(cat, front);
      var prev := ImportRows(cat, front).0;
      var next := ImportRow(prev, rows[n]);
      forall i | 0 <= i < |rows| && Strip(rows[i].0) != [] ensures HasModel(next, Strip(rows[i].0)) {
        if i < n {
          assert front[i] == rows[i];
          var j :| 0 <= j < |prev| && prev[j].model == Strip(rows[i].0);
          assert next[j] == prev[j];
        }
      }
    }
  }

  /** `b` is the stripped model and description of one of the rows. */
  predicate FromRow(b: Breaker, rows: seq<(string, string)>) {
    exists k :: 0 <= k < |rows| && b == Breaker(Strip(rows[k].0), Strip(rows[k].1))
  }

  /** Every appended entry is some row's stripped model and description, with
      a non-empty model. */
  lemma {:induction false} ImportRowsSound(cat: seq<Breaker>, rows: seq<(string, string)>)
    ensures var r := ImportRows(cat, rows).0;
            forall i :: |cat| <= i < |r| ==> r[i].model != [] && FromRow(r[i], rows)
    decreases |rows|
  {
    if rows != [] {
      var n := |rows| - 1;
      var front := rows[..n];
      ImportRowsSound(cat, front);
      ImportRowsExtends(cat, front);
      var prev := ImportRows(cat, front).0;
      var next := ImportRow(prev, rows[n]);
      assert ImportRows(cat, rows).0 == next;
      assert |prev| >= |cat|;
      forall i | |cat| <= i < |next| ensures next[i].model != [] && FromRow(next[i], rows) {
        if i < |prev| {
          assert FromRow(prev[i], front);
          var k :| 0 <= k < |front| && prev[i] == Breaker(Strip(front[k].0), Strip(front[k].1));
          assert front[k] == rows[k];
          assert next[i] == prev[i];
        } else {
          assert next != prev && i == |prev|;
          assert next[i] == Breaker(Strip(rows[n].0), Strip(rows[n].1));
        }
      }
    }
  }

  // ---------------------------------------------------------------- search

  /** The popup's filter: the search text, lower-cased, occurs in the lower-cased
      description or the lower-cased model. */
  predicate Matches(search: string, b: Breaker)
    ensures Lower(search) == [] ==> Matches(search, b)
  {
    EmptyContained(Lower(b.desc));
    Contains(Lower(b.desc), Lower(search)) || Contains(Lower(b.model), Lower(search))
  }

  /** `r` is `s` with some entries left out, the rest kept in their order. */
  predicate IsSubsequence<T(==)>(r: seq<T>, s: seq<T>)
    decreases |s|
  {
    r == [] ||
    (s != [] &&
     ((r[|r| - 1] == s[|s| - 1] && IsSubsequence(r[..|r| - 1], s[..|s| - 1])) ||
      IsSubsequence(r, s[..|s| - 1])))
  }

  /** The entries `update_list` shows, in catalogue order. */
  function Search(cat: seq<Breaker>, search: string): (r: seq<Breaker>)
    ensures |r| <= |cat|
    ensures IsSubsequence(r, cat)
    ensures forall b :: b in r <==> b in cat && Matches(search, b)
    decreases |cat|
  {
    if cat == [] then []
    else
      var front := Search(cat[..|cat| - 1], search);
      var last := cat[|cat| - 1];
      assert cat == cat[..|cat| - 1] + [last];
      if Matches(search, last) then front + [last] else front
  }

  lemma LowerIdempotent(s: string)
    ensures Lower(Lower(s)) == Lower(s)
  {
  }

  lemma EmptyContained(s: string)
    ensures Contains(s, [])
  {
    assert [] <= s[0..];
  }

  /** The search ignores case: a search text and its lower-case form list the
      same entries. */
  lemma {:induction false} SearchIgnoresCase(cat: seq<Breaker>, search: string)
    ensures Search(cat, Lower(search)) == Search(cat, search)
    decreases |cat|
  {
    if cat != [] {
      SearchIgnoresCase(cat[..|cat| - 1], search);
      LowerIdempotent(search);
      var b := cat[|cat| - 1];
      assert Matches(Lower(search), b) == Matches(search, b);
    }
  }

  /** An empty search lists the whole catalogue. */
  lemma {:induction false} EmptySearchListsAll(cat: seq<Breaker>)
    ensures Search(cat, []) == cat
    decreases |cat|
  {
    if cat != [] {
      var front := cat[..|cat| - 1];
      var b := cat[|cat| - 1];
      EmptySearchListsAll(front);
      assert Lower([]) == [];
      EmptyContained(Lower(b.desc));
      assert Matches([], b);
      assert Search(cat, []) == Search(front, []) + [b];
      assert cat == front + [b];
    }
  }

  // ---------------------------------------------------------------- labels

  /** How the listbox shows an entry. */
  function ListLabel(model: string, desc: string): (r: string)
    ensures |r| == |desc| + |model| + 3
    ensures r[..|desc|] == desc && r[|r| - 1] == ')'
  {
    desc + " (" + model + ")"
  }

  /** `s.strip(c)`: every leading and trailing `c` removed. */
  function StripChar(s: string, c: char): (r: string)
    ensures |r| <= |s| && multiset(r) <= multiset(s)
    decreases |s|
  {
    if s != [] && s[0] == c then
      assert s == [s[0]] + s[1..];
      StripChar(s[1..], c)
    else if s != [] && s[|s| - 1] == c then
      assert s == s[..|s| - 1] + [s[|s| - 1]];
      StripChar(s[..|s| - 1], c)
    else s
  }

  /** The popup's `select_item` as written: the model is the text after the
      last '(' with ')' stripped from both ends, the description the text
      before the first '(' with whitespace stripped. */
  function ParseLabelAsWritten(shown: string): (r: Breaker)
    ensures '(' !in r.model && '(' !in r.desc
  {
    var parts := Split(shown, '(');
    var last := parts[|parts| - 1];
    assert '(' !in last && '(' !in parts[0];
    assert '(' !in multiset(last);
    StripNoNew(parts[0], '(');
    Breaker(StripChar(parts[|parts| - 1], ')'), Strip(parts[0]))
  }

  lemma StripCloseTail(m: string)
    requires ')' !in m
    ensures StripChar(m + ")", ')') == m
  {
    var t := m + ")";
    if m == [] {
      assert t[1..] == [];
    } else {
      assert t[0] == m[0] != ')';
      assert t[..|t| - 1] == m;
      assert m[|m| - 1] != ')';
    }
  }

  /** A description holding a parenthesised part loses it: an entry whose
      description is `d + " (" + x + ")"` is listed as
      `d + " (" + x + ") (" + model + ")"` and read back with description `d`
      (for example description "A (B)", model "C" comes back as "A"). */
  lemma AsWrittenLosesDescription(d: string, x: string, model: string)
    requires '(' !in d && '(' !in x && '(' !in model && ')' !in model
    requires d != [] && !IsSpace(d[0]) && !IsSpace(d[|d| - 1])
    ensures ParseLabelAsWritten(ListLabel(model, d + " (" + x + ")")) == Breaker(model, d)
  {
    var shown := ListLabel(model, d + " (" + x + ")");
    assert Split(shown, '(') == [d + " ", x + ") ", model + ")"] by {
      var tail := (x + ") ") + ['('] + (model + ")");
      assert shown == (d + " ") + ['('] + tail;
      assert '(' !in d + " " && '(' !in x + ") " && '(' !in model + ")";
      SplitAfterPrefix(d + " ", '(', tail);
      SplitAfterPrefix(x + ") ", '(', model + ")");
      SplitWithoutSep(model + ")", '(');
    }
    assert Strip(d + " ") == d by {
      StripPadded([], d, " ");
      assert [] + d + " " == d + " ";
    }
    StripCloseTail(model);
  }

  /** On a label whose model holds no parenthesis and whose description holds
      no '(' and is not padded with whitespace, the parse as written and the
      corrected parse read back the same entry. */
  lemma AsWrittenAgreesOnPlainLabels(model: string, desc: string)
    requires '(' !in desc && '(' !in model && ')' !in model
    requires desc != [] ==> !IsSpace(desc[0]) && !IsSpace(desc[|desc| - 1])
    ensures ParseLabel(ListLabel(model, desc)).Some?
    ensures ParseLabelAsWritten(ListLabel(model, desc)) == ParseLabel(ListLabel(model, desc)).value
  {
    SplitPlainLabel(model, desc);
    assert Strip(desc + " ") == desc by {
      if desc == [] {
        assert TrimLeft(" ") == TrimLeft(" "[1..]);
      } else {
        StripPadded([], desc, " ");
        assert [] + desc + " " == desc + " ";
      }
    }
    StripCloseTail(model);
    ParseListLabel(model, desc);
  }

  /** Without '(' in the model or the description, the label splits at its one '('. */
  lemma SplitPlainLabel(model: string, desc: string)
    requires '(' !in desc && '(' !in model
    ensures Split(ListLabel(model, desc), '(') == [desc + " ", model + ")"]
  {
    var shown := ListLabel(model, desc);
    assert shown == (desc + " ") + ['('] + (model + ")");
    assert '(' !in desc + " " && '(' !in model + ")";
    SplitAfterPrefix(desc + " ", '(', model + ")");
    SplitWithoutSep(model + ")", '(');
  }

  /** Whether `s[i..i + 2]` is " (". */
  predicate OpensAt(s: string, i: int) {
    0 <= i && i + 1 < |s| && s[i] == ' ' && s[i + 1] == '('
  }

  /** The last position before `n` where " (" starts. */
  function LastOpen(s: string, n: nat): (r: Option<nat>)
    requires n <= |s|
    ensures r.Some? ==> r.value + 1 < n && OpensAt(s, r.value)
    ensures r.Some? ==> forall i :: r.value < i && i + 1 < n ==> !OpensAt(s, i)
    ensures r.None? ==> forall i :: 0 <= i && i + 1 < n ==> !OpensAt(s, i)
  {
    if n < 2 then None
    else if OpensAt(s, n - 2) then Some(n - 2)
    else LastOpen(s, n - 1)
  }

  /** The entry a listbox shown shows: the model is the text between the last
      " (" and the closing ')', the description everything before it. */
  function ParseLabel(shown: string): (r: Option<Breaker>)
    ensures r.Some? ==> ListLabel(r.value.model, r.value.desc) == shown
  {
    if shown == [] || shown[|shown| - 1] != ')' then None
    else match LastOpen(shown, |shown| - 1)
      case None => None
      case Some(i) =>
        var b := Breaker(shown[i + 2..|shown| - 1], shown[..i]);
        assert shown == shown[..i] + " (" + shown[i + 2..|shown| - 1] + ")";
        Some(b)
  }

  /** Any description, and any model without " (" in it, is read back exactly. */
  lemma ParseListLabel(model: string, desc: string)
    requires forall i :: !OpensAt(model, i)
    ensures ParseLabel(ListLabel(model, desc)) == Some(Breaker(model, desc))
  {
    var s := ListLabel(model, desc);
    var d := |desc|;
    assert OpensAt(s, d);
    forall i | d < i && i + 1 < |s| - 1 ensures !OpensAt(s, i) {
      if i == d + 1 {
        assert s[i] == '(';
      } else {
        assert s[i] == model[i - d - 2];
        if i + 1 < |s| - 1 {
          assert s[i + 1] == model[i - d - 1];
          assert !OpensAt(model, i - d - 2);
        }
      }
    }
    assert s[|s| - 1] == ')';
    var r := LastOpen(s, |s| - 1);
    assert r == Some(d);
    assert s[d + 2..|s| - 1] == model;
    assert s[..d] == desc;
  }
}
