/** The feed-diff engine end to end: two parsed feeds in, one outcome out.
    A feed arrives as the outcome of parsing: either a parse error or the
    texts of the elements the `Object/ExternalId` path matched. */
module Comparison {
  import opened Wrappers
  import opened Text
  import opened Extraction
  import opened Classification
  import opened Report

  datatype Document = Malformed(reason: string) | Parsed(matched: seq<Option<string>>)

  /** What the caller is told: the parse error of the first feed that failed
      to parse, that no identifiers were found, or the report table. */
  datatype Outcome = InvalidXml(reason: string) | NoExternalIds | Produced(table: seq<seq<string>>)

  /** The iteration orders fit the identifier sets the two feeds yield; they
      only exist once both feeds have parsed. */
  predicate OrdersFit(oldDoc: Document, newDoc: Document, oldOrder: seq<string>, addedOrder: seq<string>) {
    oldDoc.Parsed? && newDoc.Parsed? ==>
      var oldIds := Extract(oldDoc.matched);
      Enumerates(oldOrder, oldIds) && Enumerates(addedOrder, Extract(newDoc.matched) - oldIds)
  }

  /** A report line stating for its identifier the status and detail that
      set membership in the two feeds calls for. */
  predicate CorrectLine(line: seq<string>, oldIds: set<string>, newIds: set<string>) {
    && |line| == 3
    && Expected(line[0], oldIds, newIds).Some?
    && line[1] == Expected(line[0], oldIds, newIds).value.Name()
    && line[2] == Detail(Expected(line[0], oldIds, newIds).value)
  }

  /** Parse the old feed, then the new one, extract both identifier sets,
      classify, and either report that nothing was found or produce the table. */
  function CompareFeeds(oldDoc: Document, newDoc: Document,
                        oldOrder: seq<string>, addedOrder: seq<string>): (out: Outcome)
    requires OrdersFit(oldDoc, newDoc, oldOrder, addedOrder)
    ensures oldDoc.Malformed? ==> out == InvalidXml(oldDoc.reason)
    ensures oldDoc.Parsed? && newDoc.Malformed? ==> out == InvalidXml(newDoc.reason)
    ensures out.NoExternalIds? <==>
              oldDoc.Parsed? && newDoc.Parsed? &&
              Extract(oldDoc.matched) == {} && Extract(newDoc.matched) == {}
    ensures out.InvalidXml? ==> oldDoc.Malformed? || newDoc.Malformed?
    ensures out.Produced? <==>
              oldDoc.Parsed? && newDoc.Parsed? &&
              Extract(oldDoc.matched) + Extract(newDoc.matched) != {}
    ensures out.Produced? ==>
              |out.table| == |Extract(oldDoc.matched) + Extract(newDoc.matched)| + 1 &&
              out.table[0] == Header
  {
    match oldDoc
    case Malformed(reason) => InvalidXml(reason)
    case Parsed(oldMatched) =>
      match newDoc
      case Malformed(reason) => InvalidXml(reason)
      case Parsed(newMatched) =>
        var oldIds := Extract(oldMatched);
        var newIds := Extract(newMatched);
        var result := Classify(oldIds, newIds, oldOrder, addedOrder);
        ClassifyEmptyIff(oldIds, newIds, oldOrder, addedOrder);
        ClassifyComplete(oldIds, newIds, oldOrder, addedOrder);
        match Render(result)
        case None => NoExternalIds
        case Some(table) => Produced(table)
  }

  /** Each data line of a rendered classification states the status and
      detail its identifier is due. */
  lemma LinesCorrect(oldIds: set<string>, newIds: set<string>,
                     oldOrder: seq<string>, addedOrder: seq<string>)
    requires Enumerates(oldOrder, oldIds) && Enumerates(addedOrder, newIds - oldIds)
    ensures var report := Render(Classify(oldIds, newIds, oldOrder, addedOrder));
            report.Some? ==> forall i :: 1 <= i < |report.value| ==> CorrectLine(report.value[i], oldIds, newIds)
  {
    var result := Classify(oldIds, newIds, oldOrder, addedOrder);
    if result == [] { return; }
    var table := Render(result).value;
    ClassifySound(oldIds, newIds, oldOrder, addedOrder);
    forall i | 1 <= i < |table| ensures CorrectLine(table[i], oldIds, newIds) {
      assert table[i] == Fields(result[i - 1]);
    }
  }

  /** Each identifier of either set is on exactly one data line of a
      rendered classification, and no other identifier is. */
  lemma LinesCover(oldIds: set<string>, newIds: set<string>,
                   oldOrder: seq<string>, addedOrder: seq<string>)
    requires Enumerates(oldOrder, oldIds) && Enumerates(addedOrder, newIds - oldIds)
    ensures var report := Render(Classify(oldIds, newIds, oldOrder, addedOrder));
            report.Some? ==>
              && (forall id :: id in oldIds + newIds <==> exists i :: 1 <= i < |report.value| && report.value[i][0] == id)
              && (forall i, j :: 1 <= i < j < |report.value| ==> report.value[i][0] != report.value[j][0])
  {
    var result := Classify(oldIds, newIds, oldOrder, addedOrder);
    if result == [] { return; }
    var table := Render(result).value;
    ClassifyComplete(oldIds, newIds, oldOrder, addedOrder);
    forall i | 1 <= i < |table| ensures table[i][0] == result[i - 1].id {
      assert table[i] == Fields(result[i - 1]);
    }
    forall id | id in oldIds + newIds ensures exists i :: 1 <= i < |table| && table[i][0] == id {
      var k :| 0 <= k < |result| && result[k].id == id;
      assert table[k + 1][0] == id;
    }
    forall id | (exists i :: 1 <= i < |table| && table[i][0] == id) ensures id in oldIds + newIds {
      var i :| 1 <= i < |table| && table[i][0] == id;
      assert result[i - 1].id == id;
    }
    forall i, j | 1 <= i < j < |table| ensures table[i][0] != table[j][0] {
      assert result[i - 1].id != result[j - 1].id;
    }
  }

  /** Every data line of a produced report is correct for its identifier, and
      every identifier of either feed is on exactly one data line. */
  lemma ReportContents(oldDoc: Document, newDoc: Document,
                       oldOrder: seq<string>, addedOrder: seq<string>)
    requires OrdersFit(oldDoc, newDoc, oldOrder, addedOrder)
    ensures var out := CompareFeeds(oldDoc, newDoc, oldOrder, addedOrder);
            out.Produced? ==>
              && oldDoc.Parsed? && newDoc.Parsed?
              && var oldIds := Extract(oldDoc.matched);
              var newIds := Extract(newDoc.matched);
              && (forall i :: 1 <= i < |out.table| ==> CorrectLine(out.table[i], oldIds, newIds))
              && (forall id :: id in oldIds + newIds <==> exists i :: 1 <= i < |out.table| && out.table[i][0] == id)
              && (forall i, j :: 1 <= i < j < |out.table| ==> out.table[i][0] != out.table[j][0])
  {
    if oldDoc.Malformed? || newDoc.Malformed? { return; }
    var oldIds := Extract(oldDoc.matched);
    var newIds := Extract(newDoc.matched);
    var result := Classify(oldIds, newIds, oldOrder, addedOrder);
    if result == [] { return; }
    assert CompareFeeds(oldDoc, newDoc, oldOrder, addedOrder) == Produced(Render(result).value);
    LinesCorrect(oldIds, newIds, oldOrder, addedOrder);
    LinesCover(oldIds, newIds, oldOrder, addedOrder);
  }

  /** The whitespace-only text of an `ExternalId` element in the old feed is
      not discarded: it becomes the identifier `""`, which then gets a report
      line of its own. */
  lemma BlankIdentifierReported(oldDoc: Document, newDoc: Document,
                                oldOrder: seq<string>, addedOrder: seq<string>, i: int)
    requires OrdersFit(oldDoc, newDoc, oldOrder, addedOrder)
    requires oldDoc.Parsed? && newDoc.Parsed?
    requires 0 <= i < |oldDoc.matched| && oldDoc.matched[i].Some?
    requires oldDoc.matched[i].value != [] && AllSpace(oldDoc.matched[i].value)
    ensures CompareFeeds(oldDoc, newDoc, oldOrder, addedOrder).Produced?
    ensures var table := CompareFeeds(oldDoc, newDoc, oldOrder, addedOrder).table;
            exists k :: 1 <= k < |table| && table[k][0] == ""
  {
    ExtractKeepsBlank(oldDoc.matched, i);
    var oldIds := Extract(oldDoc.matched);
    assert "" in oldIds + Extract(newDoc.matched);
    ReportContents(oldDoc, newDoc, oldOrder, addedOrder);
  }
}
