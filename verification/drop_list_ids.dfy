/**
 * Drop-list identifiers: the palette list is "availableFields", the row at
 * section `s`, position `r` is "row-<s>-<r>". A drop handler recovers the
 * source row of a transfer by splitting the id at '-' and parsing the two
 * numbers.
 */
module DropListIds {
  import opened Optional
  import opened FormModel
  import opened JsStrings

  const PaletteListId: string := "availableFields"

  /** The id of the drop list of row `r` in section `s`. */
  function RowId(s: nat, r: nat): string
  {
    "row-" + NatToString(s) + "-" + NatToString(r)
  }

  /** The row a drop-list id names: pieces 1 and 2 of the id split at '-', each read with `parseInt`. */
  function ParseRowId(id: string): Option<RowRef>
  {
    var parts := Split(id, '-');
    if |parts| < 3 then None
    else match (ParseInt(parts[1]), ParseInt(parts[2]))
      case (Some(s), Some(r)) => Some(RowRef(s, r))
      case _ => None
  }

  /** Parsing a row's id gives back that row. */
  lemma ParseRowIdOfRowId(s: nat, r: nat)
    ensures ParseRowId(RowId(s, r)) == Some(RowRef(s, r))
  {
    var a, b := NatToString(s), NatToString(r);
    assert '-' !in a && '-' !in b by {
      assert AllDigits(a) && AllDigits(b);
    }
    assert RowId(s, r) == "row" + ['-'] + (a + ['-'] + b);
    SplitAtFirstSeparator("row", a + ['-'] + b, '-');
    SplitAtFirstSeparator(a, b, '-');
    SplitWithoutSeparator(b, '-');
    assert Split(RowId(s, r), '-') == ["row", a, b];
    ParseIntOfNatToString(s);
    ParseIntOfNatToString(r);
  }

  /** Different rows have different ids. */
  lemma RowIdInjective(s1: nat, r1: nat, s2: nat, r2: nat)
    requires RowId(s1, r1) == RowId(s2, r2)
    ensures s1 == s2 && r1 == r2
  {
    ParseRowIdOfRowId(s1, r1);
    ParseRowIdOfRowId(s2, r2);
  }

  /** The palette's id names no row. */
  lemma PaletteIdIsNoRowId()
    ensures ParseRowId(PaletteListId) == None
    ensures forall s: nat, r: nat :: RowId(s, r) != PaletteListId
  {
    SplitWithoutSeparator(PaletteListId, '-');
    forall s: nat, r: nat
      ensures RowId(s, r) != PaletteListId
    {
      assert RowId(s, r)[0] == 'r' && PaletteListId[0] == 'a';
    }
  }

  /** The rows of the first `k` sections, section by section and in row order within a section. */
  function RowRefsUpTo(sections: seq<Section>, k: nat): seq<RowRef>
    requires k <= |sections|
  {
    if k == 0 then []
    else RowRefsUpTo(sections, k - 1) + seq(|sections[k - 1].rows|, r requires 0 <= r < |sections[k - 1].rows| => RowRef(k - 1, r))
  }

  predicate ValidRowRef(sections: seq<Section>, ref: RowRef)
  {
    ref.sectionIndex < |sections| && ref.rowIndex < |sections[ref.sectionIndex].rows|
  }

  /** One id per row of the form, section by section: `rowDropListIds`. */
  function RowDropListIds(sections: seq<Section>): seq<string>
  {
    var refs := RowRefsUpTo(sections, |sections|);
    seq(|refs|, i requires 0 <= i < |refs| => RowId(refs[i].sectionIndex, refs[i].rowIndex))
  }

  /** Every drop target the rows offer, after the palette: `allDropListIds`. */
  function AllDropListIds(sections: seq<Section>): seq<string>
  {
    [PaletteListId] + RowDropListIds(sections)
  }

  /** Only existing rows of the first `k` sections are listed. */
  lemma {:induction false} RowRefsUpToValid(sections: seq<Section>, k: nat)
    requires k <= |sections|
    ensures forall i :: 0 <= i < |RowRefsUpTo(sections, k)| ==>
      ValidRowRef(sections, RowRefsUpTo(sections, k)[i]) && RowRefsUpTo(sections, k)[i].sectionIndex < k
  {
    if k > 0 {
      RowRefsUpToValid(sections, k - 1);
      var before := RowRefsUpTo(sections, k - 1);
      var refs := RowRefsUpTo(sections, k);
      assert forall i :: 0 <= i < |before| ==> refs[i] == before[i];
      assert forall i :: |before| <= i < |refs| ==> refs[i] == RowRef(k - 1, i - |before|);
    }
  }

  /** Every row of the first `k` sections is listed. */
  lemma {:induction false} RowRefsUpToComplete(sections: seq<Section>, k: nat)
    requires k <= |sections|
    ensures forall s, r :: 0 <= s < k && 0 <= r < |sections[s].rows| ==> RowRef(s, r) in RowRefsUpTo(sections, k)
  {
    if k > 0 {
      RowRefsUpToComplete(sections, k - 1);
      var before := RowRefsUpTo(sections, k - 1);
      var refs := RowRefsUpTo(sections, k);
      forall s, r | 0 <= s < k && 0 <= r < |sections[s].rows|
        ensures RowRef(s, r) in refs
      {
        if s == k - 1 {
          assert refs[|before| + r] == RowRef(s, r);
        } else {
          assert RowRef(s, r) in before;
          var i :| 0 <= i < |before| && before[i] == RowRef(s, r);
          assert refs[i] == RowRef(s, r);
        }
      }
    }
  }

  /** No row is listed twice. */
  lemma {:induction false} RowRefsUpToDistinct(sections: seq<Section>, k: nat)
    requires k <= |sections|
    ensures forall i, j :: 0 <= i < j < |RowRefsUpTo(sections, k)| ==> RowRefsUpTo(sections, k)[i] != RowRefsUpTo(sections, k)[j]
  {
    if k > 0 {
      RowRefsUpToDistinct(sections, k - 1);
      RowRefsUpToValid(sections, k - 1);
      var before := RowRefsUpTo(sections, k - 1);
      var refs := RowRefsUpTo(sections, k);
      assert forall i :: 0 <= i < |before| ==> refs[i] == before[i];
      assert forall i :: |before| <= i < |refs| ==> refs[i] == RowRef(k - 1, i - |before|);
    }
  }

  /** Row `i` of the listing is the id of the `i`-th listed row. */
  lemma RowDropListIdsAt(sections: seq<Section>, i: nat)
    requires i < |RowDropListIds(sections)|
    ensures var ref := RowRefsUpTo(sections, |sections|)[i];
      RowDropListIds(sections)[i] == RowId(ref.sectionIndex, ref.rowIndex) && ValidRowRef(sections, ref)
  {
    RowRefsUpToValid(sections, |sections|);
  }

  /** Every row of the form offers a drop target. */
  lemma EveryRowHasDropTarget(sections: seq<Section>, s: nat, r: nat)
    requires s < |sections| && r < |sections[s].rows|
    ensures RowId(s, r) in RowDropListIds(sections)
    ensures RowId(s, r) in AllDropListIds(sections)
  {
    var refs := RowRefsUpTo(sections, |sections|);
    RowRefsUpToComplete(sections, |sections|);
    assert RowRef(s, r) in refs;
    var i :| 0 <= i < |refs| && refs[i] == RowRef(s, r);
    RowDropListIdsAt(sections, i);
    assert AllDropListIds(sections)[i + 1] == RowDropListIds(sections)[i];
  }

  /** Every row target parses back to an existing row. */
  lemma RowTargetsNameRows(sections: seq<Section>, i: nat)
    requires i < |RowDropListIds(sections)|
    ensures ParseRowId(RowDropListIds(sections)[i]).Some?
    ensures ValidRowRef(sections, ParseRowId(RowDropListIds(sections)[i]).value)
  {
    var ref := RowRefsUpTo(sections, |sections|)[i];
    RowDropListIdsAt(sections, i);
    ParseRowIdOfRowId(ref.sectionIndex, ref.rowIndex);
  }

  /** No two rows share a drop-list id. */
  lemma RowDropListIdsDistinct(sections: seq<Section>, a: nat, b: nat)
    requires a < b < |RowDropListIds(sections)|
    ensures RowDropListIds(sections)[a] != RowDropListIds(sections)[b]
  {
    var refs := RowRefsUpTo(sections, |sections|);
    RowRefsUpToDistinct(sections, |sections|);
    assert refs[a] != refs[b];
    RowDropListIdsAt(sections, a);
    RowDropListIdsAt(sections, b);
    if RowDropListIds(sections)[a] == RowDropListIds(sections)[b] {
      RowIdInjective(refs[a].sectionIndex, refs[a].rowIndex, refs[b].sectionIndex, refs[b].rowIndex);
    }
  }

  /**
   * No two drop targets share an id, the palette's included, so a drop
   * handler can tell its source list from the id alone.
   */
  lemma DropListIdsDistinct(sections: seq<Section>, i: nat, j: nat)
    requires i < j < |AllDropListIds(sections)|
    ensures AllDropListIds(sections)[i] != AllDropListIds(sections)[j]
  {
    var ids := AllDropListIds(sections);
    assert ids[j] == RowDropListIds(sections)[j - 1];
    if i == 0 {
      RowDropListIdsAt(sections, j - 1);
      PaletteIdIsNoRowId();
    } else {
      assert ids[i] == RowDropListIds(sections)[i - 1];
      RowDropListIdsDistinct(sections, i - 1, j - 1);
    }
  }
}
