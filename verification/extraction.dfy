/** The identifier set of one feed: the stripped text of every matched
    `Object/ExternalId` element whose text is truthy, collected into a set.
    Parsing and path matching happen before this module; its input is the
    `text` of each matched element, in document order. */
module Extraction {
  import opened Wrappers
  import opened Text

  /** Element text `text` puts `id` into the set: the text passes the
      truthiness guard (present and non-empty) and strips to `id`. */
  predicate Yields(text: Option<string>, id: string) {
    text.Some? && text.value != [] && Strip(text.value) == id
  }

  /** What one element adds to the set: `{text.strip()}` when the text is
      truthy, nothing otherwise. */
  function Contribution(text: Option<string>): set<string> {
    match text
    case Some(t) => if t != [] then {Strip(t)} else {}
    case None => {}
  }

  /** The identifier set built from the matched elements' texts, element by
      element in document order. */
  function Extract(matched: seq<Option<string>>): set<string> {
    if matched == [] then {}
    else Extract(matched[..|matched| - 1]) + Contribution(matched[|matched| - 1])
  }

  /** A single element's set is its contribution. */
  lemma ExtractSingle(text: Option<string>)
    ensures Extract([text]) == Contribution(text)
  {
    assert [text][..0] == [];
  }

  /** Extraction over a concatenation is the union of the two parts. */
  lemma {:induction false} ExtractAppend(a: seq<Option<string>>, b: seq<Option<string>>)
    ensures Extract(a + b) == Extract(a) + Extract(b)
  {
    if b == [] {
      assert a + b == a;
    } else {
      var n := |b| - 1;
      assert (a + b)[..|a + b| - 1] == a + b[..n];
      assert (a + b)[|a + b| - 1] == b[n];
      ExtractAppend(a, b[..n]);
    }
  }

  /** Every element's contribution is in the set. */
  lemma ExtractIncludes(matched: seq<Option<string>>, i: int)
    requires 0 <= i < |matched|
    ensures Contribution(matched[i]) <= Extract(matched)
  {
    var before, here, after := matched[..i], [matched[i]], matched[i + 1..];
    assert matched == before + here + after;
    ExtractSingle(matched[i]);
    ExtractAppend(before + here, after);
    ExtractAppend(before, here);
  }

  /** An identifier is in the set exactly when some matched element yields
      it: its text is present and non-empty and strips to that identifier. */
  lemma {:induction false} ExtractMembership(matched: seq<Option<string>>, id: string)
    ensures id in Extract(matched) <==> exists i :: 0 <= i < |matched| && Yields(matched[i], id)
  {
    if matched != [] {
      var n := |matched| - 1;
      var init := matched[..n];
      ExtractMembership(init, id);
      if id in Extract(init) {
        var i :| 0 <= i < n && Yields(init[i], id);
        assert matched[i] == init[i];
      } else if id in Contribution(matched[n]) {
        assert Yields(matched[n], id);
      }
    }
  }

  /** Reordering the matched elements does not change the identifier set. */
  lemma ExtractOrderInsensitive(a: seq<Option<string>>, b: seq<Option<string>>)
    requires multiset(a) == multiset(b)
    ensures Extract(a) == Extract(b)
  {
    forall id | id in Extract(a) ensures id in Extract(b) {
      ExtractMembership(a, id);
      ExtractMembership(b, id);
      var i :| 0 <= i < |a| && Yields(a[i], id);
      assert a[i] in multiset(b);
      var j :| 0 <= j < |b| && b[j] == a[i];
    }
    forall id | id in Extract(b) ensures id in Extract(a) {
      ExtractMembership(a, id);
      ExtractMembership(b, id);
      var j :| 0 <= j < |b| && Yields(b[j], id);
      assert b[j] in multiset(a);
      var i :| 0 <= i < |a| && a[i] == b[j];
    }
  }

  /** A repeated element adds nothing: duplicates collapse. */
  lemma ExtractDuplicate(matched: seq<Option<string>>, i: int)
    requires 0 <= i < |matched|
    ensures Extract(matched + [matched[i]]) == Extract(matched)
  {
    ExtractAppend(matched, [matched[i]]);
    ExtractSingle(matched[i]);
    ExtractIncludes(matched, i);
  }

  /** An element whose text is absent or empty is skipped: removing it leaves
      the identifier set unchanged. */
  lemma ExtractSkipsEmpty(matched: seq<Option<string>>, i: int)
    requires 0 <= i < |matched|
    requires matched[i].None? || matched[i].value == []
    ensures Extract(matched[..i] + matched[i + 1..]) == Extract(matched)
  {
    var before, here, after := matched[..i], [matched[i]], matched[i + 1..];
    assert matched == before + here + after;
    ExtractSingle(matched[i]);
    assert Extract(here) == {};
    ExtractAppend(before + here, after);
    ExtractAppend(before, here);
    ExtractAppend(before, after);
  }

  /** Whitespace-only text passes the truthiness guard and contributes the
      empty identifier `""`. */
  lemma ExtractKeepsBlank(matched: seq<Option<string>>, i: int)
    requires 0 <= i < |matched|
    requires matched[i].Some? && matched[i].value != [] && AllSpace(matched[i].value)
    ensures "" in Extract(matched)
  {
    StripEmptyIff(matched[i].value);
    ExtractIncludes(matched, i);
  }

  /** Surrounding whitespace is not part of an identifier:
      `<ExternalId>  42  </ExternalId>` gives `"42"`, an empty element none. */
  lemma ExtractExamples()
    ensures Extract([Some("  42  ")]) == {"42"}
    ensures Extract([Some(""), None]) == {}
  {
    StripPadded("  ", "42", "  ");
    assert "  " + "42" + "  " == "  42  ";
    ExtractSingle(Some("  42  "));
    ExtractSingle(Some(""));
    ExtractSingle(None);
    ExtractAppend([Some("")], [None]);
    assert [Some("")] + [None] == [Some(""), None];
  }
}
