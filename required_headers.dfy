/** Lines 52-71 of the runner: the required keys absent from the column map are added
    as new header cells after the last column, and the map is read again. */
module RequiredHeaders {
  import opened Text
  import opened Seqs
  import opened HeaderMap

  /** The keys the script needs, in the order it checks them. */
  const REQUIRED: seq<string> := ["date", "title", "authors", "abstract", "link"]

  /** Keys that are their own normalised form, storable and pairwise distinct. */
  predicate WellFormedKeys(keys: seq<string>)
  {
    && (forall i :: 0 <= i < |keys| ==> Storable(keys[i]) && Normalize(keys[i]) == keys[i])
    && (forall i, j :: 0 <= i < j < |keys| ==> keys[i] != keys[j])
  }

  /** `required.filter(h => !(h in columnMap))`, with `in` read as a look-up of the keys
      the map holds. JavaScript's `in` also finds names inherited from `Object.prototype`
      (`toString`, `constructor`, `hasOwnProperty`, ...); none of the five required keys
      is such a name, so for them the two readings agree. */
  function MissingKeys(required: seq<string>, columnMap: ColumnMap): (r: seq<string>)
    ensures |r| <= |required|
    ensures forall i :: 0 <= i < |r| ==> r[i] !in columnMap
  {
    Filter(required, k => k !in columnMap)
  }

  /** The missing list is exactly the required keys absent from the map, in required
      order: its k-th entry is `required[ix[k]]` for increasing positions `ix`, and a
      position is among them exactly when its key is unmapped. */
  lemma MissingKeysExactly(required: seq<string>, columnMap: ColumnMap)
    ensures var r, ix := MissingKeys(required, columnMap), KeptIndices(required, k => k !in columnMap);
      && |r| == |ix|
      && StrictlyIncreasing(ix)
      && (forall k :: 0 <= k < |ix| ==> ix[k] < |required| && r[k] == required[ix[k]])
      && (forall i :: 0 <= i < |required| ==> (i in ix <==> required[i] !in columnMap))
  {
    FilterIsOrderedSelection(required, k => k !in columnMap);
  }

  /** `key.charAt(0).toUpperCase() + key.slice(1)`. */
  function DisplayHeader(key: string): (r: string)
    ensures |r| == |key|
  {
    if key == "" then "" else [UpperChar(key[0])] + key[1..]
  }

  /** The labels written for a list of keys, one per key. */
  function DisplayHeaders(keys: seq<string>): (r: seq<string>)
    ensures |r| == |keys|
    ensures forall i :: 0 <= i < |keys| ==> r[i] == DisplayHeader(keys[i])
  {
    seq(|keys|, i requires 0 <= i < |keys| => DisplayHeader(keys[i]))
  }

  /** The capitalised label of a normalised key reads back as that key. */
  lemma DisplayHeaderNormalizesBack(key: string)
    requires key != "" && Normalize(key) == key
    ensures Normalize(DisplayHeader(key)) == key
  {
    var t := Trim(key);
    TrimmedEnds(key);
    var d := DisplayHeader(key);
    assert key == ToLower(t);
    assert |t| == |key|;
    CaseKeepsWhitespace(t[0]);
    CaseKeepsWhitespace(t[|t| - 1]);
    CaseKeepsWhitespace(key[0]);
    assert d[|d| - 1] == key[|key| - 1] || |key| == 1;
    TrimOfTrimmed(d);
    assert LowerChar(UpperChar(key[0])) == key[0];
    forall i | 1 <= i < |d| ensures LowerChar(d[i]) == key[i] {
      assert key[i] == LowerChar(t[i]);
    }
    assert ToLower(d) == key;
  }

  /** `m` with `ks[i]` set to column `first + i`, left to right. */
  function PlaceKeys(m: ColumnMap, ks: seq<string>, first: Column): ColumnMap
  {
    if ks == [] then m
    else PlaceKeys(m, ks[..|ks| - 1], first)[ks[|ks| - 1] := first + |ks| - 1]
  }

  /** Appending the labels of normalised keys to a header row places those keys, in
      order, from the first new column on. */
  lemma AppendedLabels(headers: seq<string>, ks: seq<string>)
    requires forall i :: 0 <= i < |ks| ==> Storable(ks[i]) && Normalize(ks[i]) == ks[i]
    ensures ColumnMapOf(headers + DisplayHeaders(ks)) == PlaceKeys(ColumnMapOf(headers), ks, |headers| + 1)
  {
    HeaderKeysAppend(headers, DisplayHeaders(ks));
    LabelsReadBack(ks);
    KeyMapAppend(HeaderKeys(headers), ks);
  }

  lemma HeaderKeysAppend(a: seq<string>, b: seq<string>)
    ensures HeaderKeys(a + b) == HeaderKeys(a) + HeaderKeys(b)
  {
    var ab := a + b;
    var l, ka, kb := HeaderKeys(ab), HeaderKeys(a), HeaderKeys(b);
    assert |l| == |ka + kb|;
    forall i | 0 <= i < |a| ensures l[i] == ka[i] {
      assert ab[i] == a[i];
    }
    forall i | |a| <= i < |ab| ensures l[i] == kb[i - |a|] {
      assert ab[i] == b[i - |a|];
    }
    assert l == ka + kb;
  }

  /** The labels written for normalised keys read back as those keys. */
  lemma LabelsReadBack(ks: seq<string>)
    requires forall i :: 0 <= i < |ks| ==> ks[i] != "" && Normalize(ks[i]) == ks[i]
    ensures HeaderKeys(DisplayHeaders(ks)) == ks
  {
    var d := DisplayHeaders(ks);
    forall i | 0 <= i < |ks| ensures HeaderKeys(d)[i] == ks[i] {
      DisplayHeaderNormalizesBack(ks[i]);
    }
  }

  /** Reading further storable keys after `keys` places them from position |keys| + 1 on. */
  lemma {:induction false} KeyMapAppend(keys: seq<string>, ks: seq<string>)
    requires forall i :: 0 <= i < |ks| ==> Storable(ks[i])
    ensures KeyMap(keys + ks) == PlaceKeys(KeyMap(keys), ks, |keys| + 1)
  {
    if ks == [] {
      assert keys + ks == keys;
    } else {
      var init := ks[..|ks| - 1];
      KeyMapAppend(keys, init);
      assert (keys + ks)[..|keys + ks| - 1] == keys + init;
    }
  }

  /** Placing distinct keys that are not yet mapped: each lands on its own column, no
      key already mapped moves, and nothing else is added. */
  lemma {:induction false} PlaceKeysContents(m: ColumnMap, ks: seq<string>, first: Column)
    requires forall i, j :: 0 <= i < j < |ks| ==> ks[i] != ks[j]
    requires forall i :: 0 <= i < |ks| ==> ks[i] !in m
    ensures var m' := PlaceKeys(m, ks, first);
      && (forall i :: 0 <= i < |ks| ==> ks[i] in m' && m'[ks[i]] == first + i)
      && (forall k :: k in m ==> k in m' && m'[k] == m[k])
      && (forall k :: k in m' ==> k in m || k in ks)
  {
    if ks != [] {
      var init := ks[..|ks| - 1];
      var key := ks[|ks| - 1];
      PlaceKeysContents(m, init, first);
      var p := PlaceKeys(m, init, first);
      var m' := PlaceKeys(m, ks, first);
      assert m' == p[key := first + |ks| - 1];
      forall i | 0 <= i < |ks| ensures ks[i] in m' && m'[ks[i]] == first + i {
        if i < |ks| - 1 {
          assert ks[i] == init[i] && ks[i] != key;
        }
      }
      forall k | k in m' ensures k in m || k in ks {
        if k != key && k !in m {
          assert k in init;
          var i :| 0 <= i < |init| && init[i] == k;
          assert ks[i] == k;
        }
      }
    }
  }

  /** The map read again after the missing labels are written holds every required
      key; the i-th missing key sits at column `lastCol + 1 + i`, and every key that
      was already mapped keeps its column. */
  lemma CompletionPlacesMissingKeys(headers: seq<string>, required: seq<string>)
    requires WellFormedKeys(required)
    ensures var cm := ColumnMapOf(headers);
      var missing := MissingKeys(required, cm);
      var cm' := ColumnMapOf(headers + DisplayHeaders(missing));
      && (forall i :: 0 <= i < |missing| ==> missing[i] in cm' && cm'[missing[i]] == |headers| + 1 + i)
      && (forall k :: k in cm ==> k in cm' && cm'[k] == cm[k])
      && (forall i :: 0 <= i < |required| ==> required[i] in cm')
  {
    var cm := ColumnMapOf(headers);
    var missing := MissingKeys(required, cm);
    MissingKeysWellFormed(required, cm);
    AppendedLabels(headers, missing);
    PlaceKeysContents(cm, missing, |headers| + 1);
    MissingKeysCover(required, cm);
  }

  /** Keys picked out of well-formed keys are well-formed. */
  lemma MissingKeysWellFormed(required: seq<string>, cm: ColumnMap)
    requires WellFormedKeys(required)
    ensures WellFormedKeys(MissingKeys(required, cm))
  {
    var missing := MissingKeys(required, cm);
    var ix := KeptIndices(required, k => k !in cm);
    MissingKeysExactly(required, cm);
    forall i, j | 0 <= i < j < |missing| ensures missing[i] != missing[j] {
      assert ix[i] < ix[j];
    }
  }

  /** A required key is mapped already or among the missing ones. */
  lemma MissingKeysCover(required: seq<string>, cm: ColumnMap)
    ensures forall i :: 0 <= i < |required| && required[i] !in cm ==> required[i] in MissingKeys(required, cm)
  {
    var missing := MissingKeys(required, cm);
    var ix := KeptIndices(required, k => k !in cm);
    MissingKeysExactly(required, cm);
    forall i | 0 <= i < |required| && required[i] !in cm ensures required[i] in missing {
      assert i in ix;
      var k :| 0 <= k < |ix| && ix[k] == i;
      assert missing[k] == required[i];
    }
  }

  /** Lines 60-67: each missing key's label is written in row 1 at column
      `lastCol + 1 + index`, so the header row grows by exactly those labels. */
  method WriteMissingHeaders(sheet: Sheet, missing: seq<string>)
    modifies sheet
    ensures sheet.headers == old(sheet.headers) + DisplayHeaders(missing)
  {
    var lastCol := sheet.LastColumn();
    for index := 0 to |missing|
      invariant sheet.headers == old(sheet.headers) + DisplayHeaders(missing[..index])
    {
      ghost var before := sheet.headers;
      var cell := DisplayHeader(missing[index]);
      assert |before| == lastCol + index;
      sheet.SetHeader(lastCol + 1 + index, cell);
      WriteCellAppends(before, cell);
      assert DisplayHeaders(missing[..index + 1]) == DisplayHeaders(missing[..index]) + [cell];
    }
    assert missing[..|missing|] == missing;
  }

  /** Lines 52-71: read the map; if required keys are missing, write their labels
      after the last column and read the map again. */
  method CompleteRequiredHeaders(sheet: Sheet, required: seq<string>) returns (columnMap: ColumnMap)
    modifies sheet
    ensures sheet.headers == old(sheet.headers) + DisplayHeaders(MissingKeys(required, ColumnMapOf(old(sheet.headers))))
    ensures columnMap == ColumnMapOf(sheet.headers)
    ensures WellFormedKeys(required) ==> forall i :: 0 <= i < |required| ==> required[i] in columnMap
  {
    columnMap := HeaderColumnMap(sheet);
    var missing := MissingKeys(required, columnMap);
    if |missing| > 0 {
      WriteMissingHeaders(sheet, missing);
      columnMap := HeaderColumnMap(sheet);
    } else {
      assert old(sheet.headers) + DisplayHeaders(missing) == old(sheet.headers);
    }
    if WellFormedKeys(required) {
      CompletionPlacesMissingKeys(old(sheet.headers), required);
    }
  }

  /** Writing one column past the end of the header row appends one cell. */
  lemma WriteCellAppends(row: seq<string>, value: string)
    ensures WriteCell(row, |row| + 1, value) == row + [value]
  {
  }

  /** The script's own key list satisfies the conditions above. */
  lemma RequiredKeysWellFormed()
    ensures WellFormedKeys(REQUIRED)
  {
    RequiredKeysNormal();
    RequiredKeysDistinct();
  }

  lemma RequiredKeysNormal()
    ensures forall i :: 0 <= i < |REQUIRED| ==> Storable(REQUIRED[i]) && Normalize(REQUIRED[i]) == REQUIRED[i]
  {
    DateKeyNormal();
    TitleKeyNormal();
    AuthorsKeyNormal();
    AbstractKeyNormal();
    LinkKeyNormal();
  }

  lemma DateKeyNormal() ensures Normalize("date") == "date" {}
  lemma TitleKeyNormal() ensures Normalize("title") == "title" {}
  lemma AuthorsKeyNormal() ensures Normalize("authors") == "authors" {}
  lemma AbstractKeyNormal() ensures Normalize("abstract") == "abstract" {}
  lemma LinkKeyNormal() ensures Normalize("link") == "link" {}

  lemma RequiredKeysDistinct()
    ensures forall i, j :: 0 <= i < j < |REQUIRED| ==> REQUIRED[i] != REQUIRED[j]
  {
    forall i, j | 0 <= i < j < |REQUIRED| ensures REQUIRED[i] != REQUIRED[j] {
      if i == 2 && j == 3 {
        assert REQUIRED[i][1] != REQUIRED[j][1];
      } else {
        assert REQUIRED[i][0] != REQUIRED[j][0];
      }
    }
  }
}
