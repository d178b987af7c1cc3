/**
 * The startup read of the `authUser` cookie:
 * `document.cookie.split('; ').find(row => row.startsWith('authUser='))?.split('=')[1]`.
 * `split` with a non-empty separator, `find` over the rows, and the second
 * `=`-separated field of the row found.
 */
module CookieText {
  import opened Wrappers

  /** `sep` occurs in `s` starting at index `i`. */
  predicate OccursAt(s: string, sep: string, i: nat) {
    i + |sep| <= |s| && s[i..i + |sep|] == sep
  }

  predicate Free(s: string, sep: string) {
    forall j: nat :: j <= |s| ==> !OccursAt(s, sep, j)
  }

  /** First index at or after `from` where `sep` occurs (`String.prototype.indexOf`). */
  function IndexFrom(s: string, sep: string, from: nat): (r: Option<nat>)
    requires from <= |s|
    ensures r.Some? ==> from <= r.value && OccursAt(s, sep, r.value)
    ensures r.Some? ==> forall j: nat :: from <= j < r.value ==> !OccursAt(s, sep, j)
    ensures r.None? ==> forall j: nat :: from <= j ==> !OccursAt(s, sep, j)
    decreases |s| - from
  {
    if OccursAt(s, sep, from) then Some(from)
    else if from == |s| then None
    else IndexFrom(s, sep, from + 1)
  }

  function IndexOf(s: string, sep: string): (r: Option<nat>)
    ensures r.Some? ==> OccursAt(s, sep, r.value) && forall j: nat :: j < r.value ==> !OccursAt(s, sep, j)
    ensures r.None? <==> Free(s, sep)
  {
    IndexFrom(s, sep, 0)
  }

  /** `parts.join(sep)`. */
  function Join(parts: seq<string>, sep: string): string
    requires |parts| >= 1
  {
    if |parts| == 1 then parts[0] else parts[0] + sep + Join(parts[1..], sep)
  }

  lemma PrefixFree(s: string, sep: string, i: nat)
    requires |sep| > 0 && i <= |s|
    requires forall j: nat :: j < i ==> !OccursAt(s, sep, j)
    ensures Free(s[..i], sep)
  {
    forall j: nat | j <= i ensures !OccursAt(s[..i], sep, j) {
      if OccursAt(s[..i], sep, j) {
        assert s[..i][j..j + |sep|] == s[j..j + |sep|];
        assert OccursAt(s, sep, j);
      }
    }
  }

  /** `s.split(sep)`: the pieces between the occurrences of `sep`, left to right. */
  function Split(s: string, sep: string): (parts: seq<string>)
    requires |sep| > 0
    ensures |parts| >= 1
    ensures Join(parts, sep) == s
    ensures forall k :: 0 <= k < |parts| ==> Free(parts[k], sep)
    ensures forall j: nat :: j < |parts[0]| ==> !OccursAt(s, sep, j)
    ensures |parts| > 1 <==> !Free(s, sep)
    ensures |parts| > 1 ==> OccursAt(s, sep, |parts[0]|)
    decreases |s|
  {
    match IndexOf(s, sep)
    case None => [s]
    case Some(i) =>
      PrefixFree(s, sep, i);
      var rest := Split(s[i + |sep|..], sep);
      assert s == s[..i] + sep + s[i + |sep|..];
      assert ([s[..i]] + rest)[1..] == rest;
      [s[..i]] + rest
  }

  /** `rows[k]` is the first row that starts with `prefix`. */
  predicate FirstWithPrefix(rows: seq<string>, prefix: string, k: int) {
    0 <= k < |rows| && prefix <= rows[k] && forall j :: 0 <= j < k ==> !(prefix <= rows[j])
  }

  /** `rows.find(row => row.startsWith(prefix))`. */
  function FindWithPrefix(rows: seq<string>, prefix: string): (r: Option<string>)
    ensures r.Some? ==> exists k :: FirstWithPrefix(rows, prefix, k) && rows[k] == r.value
    ensures r.None? <==> forall k :: 0 <= k < |rows| ==> !(prefix <= rows[k])
  {
    if rows == [] then None
    else if prefix <= rows[0] then
      assert FirstWithPrefix(rows, prefix, 0);
      Some(rows[0])
    else
      var r := FindWithPrefix(rows[1..], prefix);
      assert r.Some? ==> exists k :: FirstWithPrefix(rows, prefix, k) && rows[k] == r.value by {
        if r.Some? {
          var k :| FirstWithPrefix(rows[1..], prefix, k) && rows[1..][k] == r.value;
          assert FirstWithPrefix(rows, prefix, k + 1) && rows[k + 1] == r.value;
        }
      }
      r
  }

  const AuthCookieRow: string := "authUser="

  /** A string that starts with `authUser=` holds a `=` at index 8. */
  lemma RowHasEquals(row: string)
    requires AuthCookieRow <= row
    ensures !Free(row, "=")
  {
    assert row[8..9] == "=";
    assert OccursAt(row, "=", 8);
  }

  lemma FreeOfEqualsIff(s: string)
    ensures Free(s, "=") <==> '=' !in s
  {
    if '=' in s {
      var j :| 0 <= j < |s| && s[j] == '=';
      assert s[j..j + 1] == "=";
      assert OccursAt(s, "=", j);
    }
    if !Free(s, "=") {
      var j: nat :| j <= |s| && OccursAt(s, "=", j);
      assert s[j] == s[j..j + 1][0] == '=';
    }
  }

  /**
   * The value the browser's cookie string gives for `authUser`: `None` when no
   * row starts with `authUser=`, otherwise the text between the first and the
   * second `=` of the first such row.
   */
  function CookieValue(documentCookie: string): (v: Option<string>)
    ensures v.None? <==>
      forall k :: 0 <= k < |Split(documentCookie, "; ")| ==> !(AuthCookieRow <= Split(documentCookie, "; ")[k])
  {
    match FindWithPrefix(Split(documentCookie, "; "), AuthCookieRow)
    case None => None
    case Some(row) =>
      var fields := Split(row, "=");
      RowHasEquals(row);
      Some(fields[1])
  }

  /** The second `=`-separated field of an `authUser=` row is the text up to the next `=`. */
  lemma FieldOfAuthRow(row: string)
    requires AuthCookieRow <= row
    ensures |Split(row, "=")| >= 2 && FieldAfterName(row, Split(row, "=")[1])
  {
    var fields := Split(row, "=");
    RowHasEquals(row);
    AuthRowFirstEquals(row);
    assert |fields[0]| == 8;
    var tail := Join(fields[1..], "=");
    assert row == fields[0] + "=" + tail;
    assert row[9..] == tail;
    var v := fields[1];
    assert fields[1..][0] == v;
    if |fields| > 2 {
      assert fields[1..][1..] == fields[2..];
      assert tail == v + "=" + Join(fields[2..], "=");
      assert row[9 + |v|] == tail[|v|];
    }
    assert row[..9] == AuthCookieRow;
    assert row[..9 + |v|] == AuthCookieRow + v;
    FreeOfEqualsIff(v);
  }

  /**
   * The value is the text after `authUser=` in the first row that starts with
   * it, up to the next `=` or the end of that row; so it never holds `=`.
   */
  lemma CookieValueIsField(documentCookie: string)
    ensures CookieValue(documentCookie).Some? ==>
      exists k :: FirstWithPrefix(Split(documentCookie, "; "), AuthCookieRow, k)
        && FieldAfterName(Split(documentCookie, "; ")[k], CookieValue(documentCookie).value)
  {
    var rows := Split(documentCookie, "; ");
    var found := FindWithPrefix(rows, AuthCookieRow);
    if found.Some? {
      var k :| FirstWithPrefix(rows, AuthCookieRow, k) && rows[k] == found.value;
      FieldOfAuthRow(found.value);
    }
  }

  /** `row` is `authUser=` followed by `v` and then nothing or a further `=`. */
  predicate FieldAfterName(row: string, v: string) {
    AuthCookieRow + v <= row && '=' !in v && (|row| == 9 + |v| || row[9 + |v|] == '=')
  }

  lemma SplitOfFree(s: string, sep: string)
    requires |sep| > 0 && Free(s, sep)
    ensures Split(s, sep) == [s]
  {
  }

  lemma IndexOfIs(s: string, sep: string, i: nat)
    requires OccursAt(s, sep, i)
    requires forall j: nat :: j < i ==> !OccursAt(s, sep, j)
    ensures IndexOf(s, sep) == Some(i)
  {
  }

  /** `authUser=` followed by a value without `; ` holds no `; `. */
  lemma AuthRowFree(v: string)
    requires Free(v, "; ")
    ensures Free(AuthCookieRow + v, "; ")
  {
    var row := AuthCookieRow + v;
    forall j: nat | j <= |row| ensures !OccursAt(row, "; ", j) {
      if j < 9 {
        assert row[j] == AuthCookieRow[j] != ';';
      } else if j + 2 <= |row| {
        assert row[j..j + 2] == v[j - 9..j - 9 + 2];
        assert !OccursAt(v, "; ", j - 9);
      }
    }
  }

  /** The first `=` of `authUser=...` is the one at index 8. */
  lemma AuthRowFirstEquals(row: string)
    requires AuthCookieRow <= row
    ensures IndexOf(row, "=") == Some(8)
  {
    assert OccursAt(row, "=", 8) by { assert row[8..9] == "="; }
    forall j: nat | j < 8 ensures !OccursAt(row, "=", j) {
      assert row[j] == AuthCookieRow[j] != '=';
    }
    IndexOfIs(row, "=", 8);
  }

  /** A first `authUser=v` row whose `v` holds no `=` gives exactly `v`. */
  lemma ValueOfFirstAuthRow(documentCookie: string, v: string)
    requires '=' !in v
    requires FirstWithPrefix(Split(documentCookie, "; "), AuthCookieRow, 0)
    requires Split(documentCookie, "; ")[0] == AuthCookieRow + v
    ensures CookieValue(documentCookie) == Some(v)
  {
    var rows := Split(documentCookie, "; ");
    assert CookieValue(documentCookie).Some? by { assert AuthCookieRow <= rows[0]; }
    CookieValueIsField(documentCookie);
    var w := CookieValue(documentCookie).value;
    var k :| FirstWithPrefix(rows, AuthCookieRow, k) && FieldAfterName(rows[k], w);
    assert k == 0;
    var row := AuthCookieRow + v;
    assert row[9..9 + |w|] == w;
    forall i | 9 <= i < |row| ensures row[i] != '=' {
      assert row[i] == v[i - 9];
    }
    assert |row| == 9 + |w|;
    assert w == row[9..] == v;
  }

  /** The browser's separator ends the first row when that row holds no `; `. */
  lemma SplitAtFirstRow(row: string, rest: string)
    requires Free(row, "; ")
    ensures Split(row + "; " + rest, "; ") == [row] + Split(rest, "; ")
  {
    var s := row + "; " + rest;
    assert IndexOf(s, "; ") == Some(|row|) by {
      assert s[|row|..|row| + 2] == "; ";
      assert OccursAt(s, "; ", |row|);
      forall j: nat | j < |row| ensures !OccursAt(s, "; ", j) {
        if j + 2 <= |row| {
          assert row[j..j + 2] == s[j..j + 2];
          assert !OccursAt(row, "; ", j);
        } else {
          assert s[j + 1] == s[|row|] == ';';
        }
      }
      IndexOfIs(s, "; ", |row|);
    }
    assert s[|row| + 2..] == rest;
  }

  /** A value without `=` and without `; ` written as the only cookie is read back. */
  lemma CookieValueOfSingleRow(v: string)
    requires '=' !in v && Free(v, "; ")
    ensures CookieValue(AuthCookieRow + v) == Some(v)
  {
    var row := AuthCookieRow + v;
    AuthRowFree(v);
    SplitOfFree(row, "; ");
    ValueOfFirstAuthRow(row, v);
  }

  /** The same value is read back when other cookies follow the `authUser` row. */
  lemma CookieValueOfFirstRow(v: string, rest: string)
    requires '=' !in v && Free(v, "; ")
    ensures CookieValue(AuthCookieRow + v + "; " + rest) == Some(v)
  {
    var row := AuthCookieRow + v;
    AuthRowFree(v);
    SplitAtFirstRow(row, rest);
    ValueOfFirstAuthRow(row + "; " + rest, v);
  }

  /** A first row that is not the `authUser` cookie is skipped. */
  lemma CookieValueSkipsRow(row: string, rest: string)
    requires Free(row, "; ") && !(AuthCookieRow <= row)
    ensures CookieValue(row + "; " + rest) == CookieValue(rest)
  {
    SplitAtFirstRow(row, rest);
    assert (Split(row + "; " + rest, "; "))[1..] == Split(rest, "; ");
  }

  /**
   * In the cookie text `before; authUser=v; after`, where no earlier row is an
   * `authUser` row, the value read is `v`, whatever the later rows hold.
   */
  lemma {:induction false} CookieValueAmongRows(before: seq<string>, v: string, after: seq<string>)
    requires forall k :: 0 <= k < |before| ==> Free(before[k], "; ") && !(AuthCookieRow <= before[k])
    requires '=' !in v && Free(v, "; ")
    ensures CookieValue(Join(before + [AuthCookieRow + v] + after, "; ")) == Some(v)
  {
    var rows := before + [AuthCookieRow + v] + after;
    if before == [] {
      if after == [] {
        assert rows == [AuthCookieRow + v];
        CookieValueOfSingleRow(v);
      } else {
        assert rows[1..] == after;
        CookieValueOfFirstRow(v, Join(after, "; "));
      }
    } else {
      assert rows[1..] == before[1..] + [AuthCookieRow + v] + after;
      CookieValueSkipsRow(before[0], Join(rows[1..], "; "));
      CookieValueAmongRows(before[1..], v, after);
    }
  }
}
