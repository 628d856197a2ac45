/** Text operations the store relies on: Python's `str.strip()` (applied to
    task names, database.py:70 and database.py:90) and the BINARY collation
    SQLite uses for `ORDER BY name` (database.py:80-82), which on UTF-8 text
    is code-point order. */
module Text {

  /** The characters for which Python's `str.isspace()` holds, the set that
      `str.strip()` with no argument removes. */
  predicate IsSpace(c: char)
  {
    var n := c as int;
    || 0x09 <= n <= 0x0D || 0x1C <= n <= 0x20 || n == 0x85 || n == 0xA0
    || n == 0x1680 || 0x2000 <= n <= 0x200A || n == 0x2028 || n == 0x2029
    || n == 0x202F || n == 0x205F || n == 0x3000
  }

  /** The first index at or after `i` that holds no whitespace (or |s|). */
  function FirstNonSpace(s: string, i: nat): (j: nat)
    requires i <= |s|
    ensures i <= j <= |s|
    ensures forall k :: i <= k < j ==> IsSpace(s[k])
    ensures j == |s| || !IsSpace(s[j])
    decreases |s| - i
  {
    if i == |s| || !IsSpace(s[i]) then i else FirstNonSpace(s, i + 1)
  }

  /** The end of the text before `j` once trailing whitespace down to `lo`
      is dropped. */
  function TrimmedEnd(s: string, lo: nat, j: nat): (e: nat)
    requires lo <= j <= |s|
    ensures lo <= e <= j
    ensures forall k :: e <= k < j ==> IsSpace(s[k])
    ensures e == lo || !IsSpace(s[e - 1])
    decreases j
  {
    if j == lo || !IsSpace(s[j - 1]) then j else TrimmedEnd(s, lo, j - 1)
  }

  /** `r` sits at offset `i` of `s` with only whitespace around it. */
  ghost predicate SlicedOut(s: string, r: string, i: int)
  {
    && 0 <= i <= |s| - |r| && r == s[i..i + |r|]
    && (forall k :: 0 <= k < i ==> IsSpace(s[k]))
    && (forall k :: i + |r| <= k < |s| ==> IsSpace(s[k]))
  }

  /** Python's `s.strip()`: the slice of `s` left after removing whitespace
      from both ends; it neither starts nor ends with whitespace. */
  function Strip(s: string): (r: string)
    ensures r == [] || (!IsSpace(r[0]) && !IsSpace(r[|r| - 1]))
    ensures exists i :: SlicedOut(s, r, i)
  {
    var i := FirstNonSpace(s, 0);
    var e := TrimmedEnd(s, i, |s|);
    assert SlicedOut(s, s[i..e], i);
    s[i..e]
  }

  /** Stripping twice is stripping once: names stored by `create_task` are
      already in the form a second `strip()` would produce. */
  lemma StripIdempotent(s: string)
    ensures Strip(Strip(s)) == Strip(s)
  {
    var r := Strip(s);
    assert FirstNonSpace(r, 0) == 0;
    assert TrimmedEnd(r, 0, |r|) == |r|;
    assert r[0..|r|] == r;
  }

  // ---------------------------------------------------------------------------
  // Lexicographic order on code points (SQLite BINARY collation).

  predicate NameLe(a: string, b: string)
  {
    if a == [] then true
    else if b == [] then false
    else if a[0] != b[0] then a[0] < b[0]
    else NameLe(a[1..], b[1..])
  }

  lemma {:induction false} NameLeTotal(a: string, b: string)
    ensures NameLe(a, b) || NameLe(b, a)
  {
    if a != [] && b != [] && a[0] == b[0] {
      NameLeTotal(a[1..], b[1..]);
    }
  }

  lemma {:induction false} NameLeTransitive(a: string, b: string, c: string)
    requires NameLe(a, b) && NameLe(b, c)
    ensures NameLe(a, c)
  {
    if a != [] && b != [] && c != [] && a[0] == b[0] && b[0] == c[0] {
      NameLeTransitive(a[1..], b[1..], c[1..]);
    }
  }

  lemma {:induction false} NameLeAntisymmetric(a: string, b: string)
    requires NameLe(a, b) && NameLe(b, a)
    ensures a == b
  {
    if a != [] && b != [] {
      NameLeAntisymmetric(a[1..], b[1..]);
      assert a == [a[0]] + a[1..];
      assert b == [b[0]] + b[1..];
    }
  }

  lemma NameOrder()
    ensures forall a, b :: NameLe(a, b) || NameLe(b, a)
    ensures forall a, b, c :: NameLe(a, b) && NameLe(b, c) ==> NameLe(a, c)
  {
    forall a, b ensures NameLe(a, b) || NameLe(b, a) {
      NameLeTotal(a, b);
    }
    forall a, b, c | NameLe(a, b) && NameLe(b, c) ensures NameLe(a, c) {
      NameLeTransitive(a, b, c);
    }
  }
}
