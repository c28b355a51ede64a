/** The list query of the students repository:

      SELECT * FROM students
      WHERE (status = :status OR :status IS NULL) AND (name LIKE :name OR :name IS NULL)
      LIMIT :limit OFFSET :offset

    as a function of the table, taken in insertion order. A null parameter is `None`. */
module Query {
  import opened Wrappers
  import opened Model
  import opened Like
  import opened Text

  /** `status = :status OR :status IS NULL`; the text parameter is compared with the
      decimal form of the row's status. */
  function StatusMatches(row: Student, status: Option<string>): (b: bool)
    ensures status.None? ==> b
    ensures b && status.Some? ==> Decimal(status.value) && ParseInt(status.value) == row.status
  {
    IntRoundTrip(row.status);
    status.None? || IntToString(row.status) == status.value
  }

  /** `name LIKE :name OR :name IS NULL`. */
  function NameMatches(row: Student, name: Option<string>): (b: bool)
    ensures name.None? ==> b
    ensures name.Some? && NoWildcards(name.value) ==> (b <==> row.name == name.value)
  {
    if name.None? then true
    else if NoWildcards(name.value) then
      LiteralMatchesItself(row.name, name.value);
      LikeMatch(row.name, name.value)
    else LikeMatch(row.name, name.value)
  }

  /** The WHERE clause; with both parameters null it keeps every row. */
  function Selected(row: Student, status: Option<string>, name: Option<string>): (b: bool)
    ensures status.None? && name.None? ==> b
  {
    StatusMatches(row, status) && NameMatches(row, name)
  }

  /** The rows of `t` the WHERE clause keeps, in table order. */
  function Filter(t: seq<Student>, status: Option<string>, name: Option<string>): (r: seq<Student>)
    ensures |r| <= |t|
    ensures forall i :: 0 <= i < |r| ==> Selected(r[i], status, name)
  {
    if t == [] then []
    else if Selected(t[0], status, name) then [t[0]] + Filter(t[1..], status, name)
    else Filter(t[1..], status, name)
  }

  /** A row is kept exactly when it is in the table and the WHERE clause holds of it. */
  lemma {:induction false} FilterMembership(t: seq<Student>, status: Option<string>, name: Option<string>)
    ensures forall row :: row in Filter(t, status, name) <==> row in t && Selected(row, status, name)
  {
    if t != [] {
      FilterMembership(t[1..], status, name);
      assert t == [t[0]] + t[1..];
    }
  }

  function Min(a: nat, b: nat): nat {
    if a <= b then a else b
  }

  /** LIMIT/OFFSET on a plain sequence: the `limit` elements from `offset` on. */
  function Window<T>(f: seq<T>, offset: nat, limit: nat): seq<T> {
    if offset >= |f| then [] else f[offset..offset + Min(limit, |f| - offset)]
  }

  /** `findAllByStatusAndName(offset, limit, status, name)`: the selected rows with the
      first `offset` dropped and then the first `limit` taken. */
  function FindAllByStatusAndName(t: seq<Student>, offset: nat, limit: nat,
                                  status: Option<string>, name: Option<string>): (r: seq<Student>)
    ensures |r| <= limit
    ensures forall i :: 0 <= i < |r| ==> Selected(r[i], status, name)
    ensures var f := Filter(t, status, name);
            && |r| == (if offset >= |f| then 0 else Min(limit, |f| - offset))
            && forall i :: 0 <= i < |r| ==> r[i] == f[offset + i]
  {
    Window(Filter(t, status, name), offset, limit)
  }

  /** Nothing is invented: every returned row is a row of the table. */
  lemma ResultRowsComeFromTable(t: seq<Student>, offset: nat, limit: nat,
                                status: Option<string>, name: Option<string>)
    ensures forall row :: row in FindAllByStatusAndName(t, offset, limit, status, name) ==> row in t
  {
    FilterMembership(t, status, name);
    var f := Filter(t, status, name);
    forall row | row in FindAllByStatusAndName(t, offset, limit, status, name) ensures row in t {
      var i :| 0 <= i < |FindAllByStatusAndName(t, offset, limit, status, name)|
             && FindAllByStatusAndName(t, offset, limit, status, name)[i] == row;
      assert row == f[offset + i];
    }
  }

  /** `a` is `b` with some elements left out, the rest kept in order. */
  predicate IsSubsequence<T(==)>(a: seq<T>, b: seq<T>)
    decreases |b|
  {
    if a == [] then true
    else if b == [] then false
    else (a[0] == b[0] && IsSubsequence(a[1..], b[1..])) || IsSubsequence(a, b[1..])
  }

  lemma {:induction false} FilterIsSubsequence(t: seq<Student>, status: Option<string>, name: Option<string>)
    ensures IsSubsequence(Filter(t, status, name), t)
  {
    if t != [] {
      FilterIsSubsequence(t[1..], status, name);
      var f := Filter(t, status, name);
      if Selected(t[0], status, name) {
        assert f[0] == t[0] && f[1..] == Filter(t[1..], status, name);
      }
    }
  }

  lemma {:induction false} SliceIsSubsequence<T>(a: seq<T>, b: seq<T>, o: nat, m: nat)
    requires IsSubsequence(a, b)
    requires o + m <= |a|
    ensures IsSubsequence(a[o..o + m], b)
    decreases |b|
  {
    var x := a[o..o + m];
    if m > 0 {
      if a[0] == b[0] && IsSubsequence(a[1..], b[1..]) {
        if o > 0 {
          SliceIsSubsequence(a[1..], b[1..], o - 1, m);
          assert x == a[1..][o - 1..o - 1 + m];
        } else {
          SliceIsSubsequence(a[1..], b[1..], 0, m - 1);
          assert x[0] == b[0] && x[1..] == a[1..][0..m - 1];
        }
      } else {
        SliceIsSubsequence(a, b[1..], o, m);
      }
    }
  }

  /** Every returned row is a row of the table, and rows keep their table order. */
  lemma ResultIsSubsequence(t: seq<Student>, offset: nat, limit: nat,
                            status: Option<string>, name: Option<string>)
    ensures IsSubsequence(FindAllByStatusAndName(t, offset, limit, status, name), t)
  {
    var f := Filter(t, status, name);
    if offset < |f| {
      FilterIsSubsequence(t, status, name);
      SliceIsSubsequence(f, t, offset, Min(limit, |f| - offset));
    }
  }

  lemma {:induction false} UnfilteredKeepsTable(t: seq<Student>)
    ensures Filter(t, None, None) == t
  {
    if t != [] {
      UnfilteredKeepsTable(t[1..]);
    }
  }

  /** With both filters null the query is a plain LIMIT/OFFSET slice of the table. */
  lemma UnfilteredIsPlainSlice(t: seq<Student>, offset: nat, limit: nat)
    ensures FindAllByStatusAndName(t, offset, limit, None, None)
         == if offset >= |t| then [] else t[offset..offset + Min(limit, |t| - offset)]
  {
    UnfilteredKeepsTable(t);
  }

  /** A page of `limit` rows that starts at 0 and is at least as long as the table
      returns every selected row. */
  lemma FirstPageCoversAll(t: seq<Student>, limit: nat, status: Option<string>, name: Option<string>)
    requires limit >= |t|
    ensures FindAllByStatusAndName(t, 0, limit, status, name) == Filter(t, status, name)
  {
    var f := Filter(t, status, name);
    assert f[0..|f|] == f;
  }

  lemma WindowsConcatenate<T>(f: seq<T>, offset: nat, l1: nat, l2: nat)
    ensures Window(f, offset, l1) + Window(f, offset + l1, l2) == Window(f, offset, l1 + l2)
  {
    var a, b, c := Window(f, offset, l1), Window(f, offset + l1, l2), Window(f, offset, l1 + l2);
    assert |a + b| == |c|;
    forall i | 0 <= i < |c| ensures (a + b)[i] == c[i] {
      if i < |a| {
        assert (a + b)[i] == f[offset + i];
      } else {
        assert (a + b)[i] == b[i - |a|] == f[offset + l1 + (i - |a|)];
      }
    }
  }

  /** Two consecutive pages together are the page that spans both. */
  lemma PagesConcatenate(t: seq<Student>, offset: nat, l1: nat, l2: nat,
                         status: Option<string>, name: Option<string>)
    ensures FindAllByStatusAndName(t, offset, l1, status, name)
          + FindAllByStatusAndName(t, offset + l1, l2, status, name)
         == FindAllByStatusAndName(t, offset, l1 + l2, status, name)
  {
    WindowsConcatenate(Filter(t, status, name), offset, l1, l2);
  }

  /** With the list handler's pattern "%" + x + "%" and x free of wildcards, the query
      keeps exactly the rows whose name contains x (and whose status matches). */
  lemma NameSearchIsSubstringSearch(t: seq<Student>, status: Option<string>, x: string)
    requires NoWildcards(x)
    ensures forall row :: row in Filter(t, status, Some("%" + x + "%"))
              <==> row in t && StatusMatches(row, status) && IsSubstring(x, row.name)
  {
    FilterMembership(t, status, Some("%" + x + "%"));
    forall row: Student ensures NameMatches(row, Some("%" + x + "%")) <==> IsSubstring(x, row.name) {
      SurroundingPercentsMatchSubstring(row.name, x);
    }
  }

  /** A status parameter that is the decimal form of a code selects the rows with that
      status and no others. */
  lemma StatusCodeSelectsThatStatus(t: seq<Student>, k: int, name: Option<string>)
    ensures forall row :: row in Filter(t, Some(IntToString(k)), name)
              <==> row in t && row.status == k && NameMatches(row, name)
  {
    FilterMembership(t, Some(IntToString(k)), name);
    forall row: Student ensures StatusMatches(row, Some(IntToString(k))) <==> row.status == k {
      IntToStringInjective(row.status, k);
    }
  }
}
