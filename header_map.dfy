/** `getHeaderColumnMap_`: the sheet's first row turned into a map from normalised
    header to 1-based column, and the sheet's header row as mutable state. */
module HeaderMap {
  import opened Text

  /** A 1-based spreadsheet column index. */
  type Column = c: int | c >= 1 witness 1

  /** Normalised header name to 1-based column. */
  type ColumnMap = map<string, Column>

  /** The key a header cell contributes: `String(h).trim().toLowerCase()`. */
  function Normalize(h: string): string
  {
    ToLower(Trim(h))
  }

  /** The row `row` after `getRange(1, col).setValue(value)`: writing past the end
      extends the row, with empty cells in between. */
  function WriteCell(row: seq<string>, col: Column, value: string): (r: seq<string>)
    ensures |r| == if col <= |row| then |row| else col
    ensures r[col - 1] == value
    ensures forall k :: 0 <= k < |r| && k != col - 1 ==> r[k] == if k < |row| then row[k] else ""
  {
    if col <= |row| then row[col - 1 := value]
    else row + seq(col - 1 - |row|, _ => "") + [value]
  }

  /** The parts of a sheet the script reads and writes through its first row: the
      header cells across every occupied column (`getLastColumn()` of them). */
  class Sheet {
    var headers: seq<string>

    constructor (headers: seq<string>)
      ensures this.headers == headers
    {
      this.headers := headers;
    }

    /** `getLastColumn()`. */
    function LastColumn(): nat
      reads this
    {
      |headers|
    }

    /** `getRange(1, col).setValue(value)`. */
    method SetHeader(col: Column, value: string)
      modifies this
      ensures headers == WriteCell(old(headers), col, value)
    {
      headers := WriteCell(headers, col, value);
    }
  }

  /** The key of every header cell, column by column. */
  function HeaderKeys(headers: seq<string>): (r: seq<string>)
    ensures |r| == |headers|
    ensures forall i :: 0 <= i < |headers| ==> r[i] == Normalize(headers[i])
  {
    seq(|headers|, i requires 0 <= i < |headers| => Normalize(headers[i]))
  }

  /** A key that `map[key] = idx + 1` stores on the object literal `{}`: a non-blank one
      other than `__proto__`, whose assignment reaches the inherited accessor of
      `Object.prototype`, which ignores a number and adds no property. */
  predicate Storable(key: string)
  {
    key != "" && key != "__proto__"
  }

  /** Keys read left to right: each storable key is set to its 1-based position, so a
      later duplicate overwrites an earlier one. */
  function KeyMap(keys: seq<string>): ColumnMap
  {
    if keys == [] then map[]
    else
      var m := KeyMap(keys[..|keys| - 1]);
      var key := keys[|keys| - 1];
      if Storable(key) then m[key := |keys|] else m
  }

  /** The column map of a header row. */
  function ColumnMapOf(headers: seq<string>): ColumnMap
  {
    KeyMap(HeaderKeys(headers))
  }

  /** `getHeaderColumnMap_(sheet)`: an empty sheet gives the empty map; otherwise the
      header cells are visited left to right, each storable key set to its column. */
  method HeaderColumnMap(sheet: Sheet) returns (m: ColumnMap)
    ensures m == ColumnMapOf(sheet.headers)
  {
    var lastCol := sheet.LastColumn();
    if lastCol == 0 {
      return map[];
    }
    var headers := sheet.headers;
    ghost var keys := HeaderKeys(headers);
    m := map[];
    for idx := 0 to |headers|
      invariant m == KeyMap(keys[..idx])
    {
      assert keys[..idx + 1][..idx] == keys[..idx];
      var key := Normalize(headers[idx]);
      if Storable(key) {
        m := m[key := idx + 1];
      }
    }
    assert keys[..|headers|] == keys;
  }

  /** Column `c` (1-based) of `headers` carries `key`. */
  predicate HeaderAt(headers: seq<string>, key: string, c: int)
  {
    1 <= c <= |headers| && Normalize(headers[c - 1]) == key
  }

  /** Position `c` (1-based) of `keys` holds `key`. */
  predicate KeyAt(keys: seq<string>, key: string, c: int)
  {
    1 <= c <= |keys| && keys[c - 1] == key
  }

  /** What the map holds: exactly the storable normalised headers, each at the last
      column that carries it. */
  lemma ColumnMapContents(headers: seq<string>, key: string)
    ensures key in ColumnMapOf(headers) <==> Storable(key) && exists c :: HeaderAt(headers, key, c)
    ensures key in ColumnMapOf(headers) ==>
      var c := ColumnMapOf(headers)[key];
      HeaderAt(headers, key, c) && forall d :: c < d <= |headers| ==> !HeaderAt(headers, key, d)
  {
    var keys := HeaderKeys(headers);
    assert forall c :: HeaderAt(headers, key, c) <==> KeyAt(keys, key, c);
    KeyMapKeys(keys, key);
    if key in KeyMap(keys) {
      KeyMapValue(keys, key);
    }
  }

  lemma {:induction false} KeyMapKeys(keys: seq<string>, key: string)
    ensures key in KeyMap(keys) <==> Storable(key) && exists c :: KeyAt(keys, key, c)
  {
    if keys != [] {
      var n := |keys|;
      var init := keys[..n - 1];
      KeyMapKeys(init, key);
      if key in KeyMap(keys) {
        if key == keys[n - 1] {
          assert KeyAt(keys, key, n);
        } else {
          var c :| KeyAt(init, key, c);
          assert KeyAt(keys, key, c);
        }
      }
      if Storable(key) && exists c :: KeyAt(keys, key, c) {
        var c :| KeyAt(keys, key, c);
        if c < n {
          assert KeyAt(init, key, c);
        }
      }
    }
  }

  lemma {:induction false} KeyMapValue(keys: seq<string>, key: string)
    requires key in KeyMap(keys)
    ensures var c := KeyMap(keys)[key];
      KeyAt(keys, key, c) && forall d :: c < d <= |keys| ==> !KeyAt(keys, key, d)
  {
    var n := |keys|;
    var init := keys[..n - 1];
    var last := keys[n - 1];
    var m, m' := KeyMap(keys), KeyMap(init);
    assert m == if Storable(last) then m'[last := n] else m';
    KeyMapKeys(keys, key);
    if key != last {
      assert key in m' && m[key] == m'[key];
      KeyMapValue(init, key);
      forall d | m[key] < d <= n ensures !KeyAt(keys, key, d) {
        if d < n {
          assert !KeyAt(init, key, d);
        }
      }
    }
  }

  /** A header reading `__proto__` never gets a column, wherever it stands. */
  lemma ProtoNeverMapped(headers: seq<string>)
    ensures "__proto__" !in ColumnMapOf(headers)
  {
    ColumnMapContents(headers, "__proto__");
  }

  /** No two keys share a column. */
  lemma ColumnMapInjective(headers: seq<string>, k1: string, k2: string)
    requires k1 in ColumnMapOf(headers) && k2 in ColumnMapOf(headers)
    requires ColumnMapOf(headers)[k1] == ColumnMapOf(headers)[k2]
    ensures k1 == k2
  {
    ColumnMapContents(headers, k1);
    ColumnMapContents(headers, k2);
  }

  /** Every column in the map lies inside the header row. */
  lemma ColumnMapWithinRow(headers: seq<string>, key: string)
    requires key in ColumnMapOf(headers)
    ensures ColumnMapOf(headers)[key] <= |headers|
  {
    ColumnMapContents(headers, key);
  }

  lemma {:induction false} TrimStartUpper(s: string)
    ensures TrimStart(ToUpper(s)) == ToUpper(TrimStart(s))
  {
    if s != [] {
      assert ToUpper(s)[1..] == ToUpper(s[1..]);
      if IsWhitespace(s[0]) {
        TrimStartUpper(s[1..]);
      }
    }
  }

  lemma {:induction false} TrimEndUpper(s: string)
    ensures TrimEnd(ToUpper(s)) == ToUpper(TrimEnd(s))
  {
    if s != [] {
      assert ToUpper(s)[..|s| - 1] == ToUpper(s[..|s| - 1]);
      if IsWhitespace(s[|s| - 1]) {
        TrimEndUpper(s[..|s| - 1]);
      }
    }
  }

  /** Headers that differ only in letter case or in surrounding whitespace give the same
      key (`" Date "`, `"DATE"` and `"date"` all give `"date"`). */
  lemma NormalizeIgnoresCaseAndPadding(w1: string, s: string, w2: string)
    requires AllWhitespace(w1) && AllWhitespace(w2)
    ensures Normalize(w1 + s + w2) == Normalize(s)
    ensures Normalize(ToUpper(s)) == Normalize(s)
  {
    TrimIgnoresPadding(w1, s, w2);
    TrimStartUpper(s);
    TrimEndUpper(TrimStart(s));
    assert Trim(ToUpper(s)) == ToUpper(Trim(s));
  }

  /** Normalising a key again changes nothing. */
  lemma NormalizeIdempotent(h: string)
    ensures Normalize(Normalize(h)) == Normalize(h)
  {
    var t := Trim(h);
    TrimmedEnds(h);
    var k := ToLower(t);
    if k != [] {
      CaseKeepsWhitespace(t[0]);
      CaseKeepsWhitespace(t[|t| - 1]);
    }
    TrimOfTrimmed(k);
    assert ToLower(k) == k;
  }
}
