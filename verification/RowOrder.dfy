/** Row keys, and the order they put the rows of a query in. */
module RowOrder {
  import opened Bytes
  import opened Terms
  import BranchText
  import BranchTextRoundTrip
  import Paging

  /** The UTF-16 code units of a key. Keys compare unit by unit. */
  type Units = seq<nat>

  /** How the host spells UTF-8 octets in UTF-16: an encoding that loses nothing. */
  datatype Spelling = Spelling(units: Octets -> Units) {
    ghost predicate Valid() {
      forall a, b :: units(a) == units(b) ==> a == b
    }
  }

  const COLON: nat := 58
  const SEMICOLON: nat := 59

  /** ASCII octets as code units. */
  function Plain(b: Octets): (u: Units)
    ensures |u| == |b| && forall i :: 0 <= i < |u| ==> u[i] == b[i] as nat
  {
    seq(|b|, i requires 0 <= i < |b| => b[i] as nat)
  }

  function Number(n: int): Units {
    Plain(BranchText.Decimal(n))
  }

  /** A text with its length before it. */
  function Sized(u: Units): Units {
    Number(|u|) + ([COLON] + u)
  }

  /** `term-key`: a tag and a spelling that says where it ends. */
  function TermKey(sp: Spelling, t: Term): (u: Units)
    ensures u != []
  {
    match t
    case Text(text) => [115] + Sized(sp.units(text))
    case Int(n) => [105] + (Number(n) + [SEMICOLON])
    case Bool(flag) => [98, if flag then 49 else 48, SEMICOLON]
    case Keyword(name) => [107] + Sized([COLON] + sp.units(name))
    case Instant(s, n) => [109] + (Number(s) + ([COLON] + (Number(n) + [SEMICOLON])))
    case Triple(a, b, c) => [116] + (Sized(TermKey(sp, a)) + (Sized(TermKey(sp, b)) + Sized(TermKey(sp, c))))
  }

  type QueryRow = seq<Option<Term>>

  /** A value of a row; a variable the pattern does not bind has the key of no value at all. */
  function ValueKey(sp: Spelling, value: Option<Term>): Units {
    match value
    case None => [120, 48, COLON]
    case Some(t) => TermKey(sp, t)
  }

  function ValueKeys(sp: Spelling, row: QueryRow): Units {
    if row == [] then [] else Sized(ValueKey(sp, row[0])) + ValueKeys(sp, row[1..])
  }

  function RowKey(sp: Spelling, row: QueryRow): Units {
    [114] + ValueKeys(sp, row)
  }

  // ----- a key names its row -----

  /** A stretch without the separator is read back up to it. */
  lemma {:induction false} UpTo(a: Units, x: Units, b: Units, y: Units, c: nat)
    requires c !in a && c !in b && a + ([c] + x) == b + ([c] + y)
    ensures a == b && x == y
  {
    var l, r := a + ([c] + x), b + ([c] + y);
    assert l[0] == (a + [c])[0] && r[0] == (b + [c])[0];
    if a == [] || b == [] {
      assert a == [] && b == [];
      assert l[1..] == x && r[1..] == y;
    } else {
      assert l[1..] == a[1..] + ([c] + x) && r[1..] == b[1..] + ([c] + y);
      UpTo(a[1..], x, b[1..], y, c);
      assert a == [a[0]] + a[1..] && b == [b[0]] + b[1..];
    }
  }

  lemma PlainIsExact(a: Octets, b: Octets)
    requires Plain(a) == Plain(b)
    ensures a == b
  {
    assert |Plain(a)| == |Plain(b)|;
    forall i | 0 <= i < |a| ensures a[i] == b[i] {
      assert Plain(a)[i] == Plain(b)[i];
    }
  }

  /** Numbers are spelled in digits, with a sign for those below zero, and no two alike. */
  lemma NumberIsPlain(n: int)
    ensures COLON !in Number(n) && SEMICOLON !in Number(n)
  {
    BranchTextRoundTrip.DecimalDigits(if n < 0 then -n else n);
  }

  lemma NumberIsExact(m: int, n: int)
    requires Number(m) == Number(n)
    ensures m == n
  {
    var a, b := BranchText.Decimal(m), BranchText.Decimal(n);
    PlainIsExact(a, b);
    BranchTextRoundTrip.DecimalDigits(if m < 0 then -m else m);
    BranchTextRoundTrip.DecimalDigits(if n < 0 then -n else n);
    hide BranchText.DecimalNat, BranchText.DecimalValue;
    assert m < 0 <==> a[0] == 45;
    assert n < 0 <==> b[0] == 45;
    assert m < 0 ==> a[1..] == BranchText.DecimalNat(-m);
    assert n < 0 ==> b[1..] == BranchText.DecimalNat(-n);
  }

  lemma SizedIsExact(a: Units, x: Units, b: Units, y: Units)
    requires Sized(a) + x == Sized(b) + y
    ensures a == b && x == y
  {
    hide Number;
    NumberIsPlain(|a|);
    NumberIsPlain(|b|);
    assert Sized(a) + x == Number(|a|) + ([COLON] + (a + x));
    assert Sized(b) + y == Number(|b|) + ([COLON] + (b + y));
    UpTo(Number(|a|), a + x, Number(|b|), b + y, COLON);
    NumberIsExact(|a|, |b|);
    assert (a + x)[..|a|] == a && (b + y)[..|b|] == b;
    assert (a + x)[|a|..] == x && (b + y)[|b|..] == y;
  }

  lemma OneSizedIsExact(a: Units, b: Units)
    requires Sized(a) == Sized(b)
    ensures a == b
  {
    hide Sized;
    assert Sized(a) + [] == Sized(a) && Sized(b) + [] == Sized(b);
    SizedIsExact(a, [], b, []);
  }

  lemma NumbersAreExact(m: int, x: Units, n: int, y: Units, c: nat)
    requires c == COLON || c == SEMICOLON
    requires Number(m) + ([c] + x) == Number(n) + ([c] + y)
    ensures m == n && x == y
  {
    hide Number;
    NumberIsPlain(m);
    NumberIsPlain(n);
    UpTo(Number(m), x, Number(n), y, c);
    NumberIsExact(m, n);
  }

  /** What follows the tag. */
  lemma TagAndRest(tag: nat, rest: Units)
    ensures ([tag] + rest)[0] == tag && ([tag] + rest)[1..] == rest
  {
  }

  lemma TriplesAreExact(a: Units, b: Units, c: Units, x: Units, y: Units, z: Units)
    requires Sized(a) + (Sized(b) + Sized(c)) == Sized(x) + (Sized(y) + Sized(z))
    ensures a == x && b == y && c == z
  {
    hide Sized;
    SizedIsExact(a, Sized(b) + Sized(c), x, Sized(y) + Sized(z));
    SizedIsExact(b, Sized(c), y, Sized(z));
    OneSizedIsExact(c, z);
  }

  predicate SameKind(a: Term, b: Term) {
    && (a.Text? <==> b.Text?) && (a.Int? <==> b.Int?) && (a.Bool? <==> b.Bool?)
    && (a.Keyword? <==> b.Keyword?) && (a.Instant? <==> b.Instant?) && (a.Triple? <==> b.Triple?)
  }

  lemma KeysShareKind(sp: Spelling, a: Term, b: Term)
    requires TermKey(sp, a)[0] == TermKey(sp, b)[0]
    ensures SameKind(a, b)
    ensures TermKey(sp, a)[0] != 120
  {
    hide Sized, Number;
  }

  lemma TextKeysAreExact(sp: Spelling, a: Octets, b: Octets)
    requires sp.Valid() && Sized(sp.units(a)) == Sized(sp.units(b))
    ensures a == b
  {
    hide Sized;
    OneSizedIsExact(sp.units(a), sp.units(b));
  }

  lemma KeywordKeysAreExact(sp: Spelling, a: Octets, b: Octets)
    requires sp.Valid() && Sized([COLON] + sp.units(a)) == Sized([COLON] + sp.units(b))
    ensures a == b
  {
    hide Sized;
    OneSizedIsExact([COLON] + sp.units(a), [COLON] + sp.units(b));
    TagAndRest(COLON, sp.units(a));
    TagAndRest(COLON, sp.units(b));
  }

  /** No two terms share a key. */
  lemma {:induction false} TermKeyIsExact(sp: Spelling, a: Term, b: Term)
    requires sp.Valid() && TermKey(sp, a) == TermKey(sp, b)
    ensures a == b
  {
    KeysShareKind(sp, a, b);
    hide Sized, Number;
    var rest := TermKey(sp, a)[1..];
    match a
    case Text(text) =>
      assert rest == Sized(sp.units(text)) && rest == Sized(sp.units(b.text));
      TextKeysAreExact(sp, text, b.text);
    case Int(n) =>
      assert rest == Number(n) + ([SEMICOLON] + []) && rest == Number(b.value) + ([SEMICOLON] + []);
      NumbersAreExact(n, [], b.value, [], SEMICOLON);
    case Bool(flag) => assert TermKey(sp, a)[1] == TermKey(sp, b)[1];
    case Keyword(name) =>
      assert rest == Sized([COLON] + sp.units(name)) && rest == Sized([COLON] + sp.units(b.name));
      KeywordKeysAreExact(sp, name, b.name);
    case Instant(s, n) =>
      assert rest == Number(s) + ([COLON] + (Number(n) + ([SEMICOLON] + [])));
      assert rest == Number(b.seconds) + ([COLON] + (Number(b.nanos) + ([SEMICOLON] + [])));
      NumbersAreExact(s, Number(n) + ([SEMICOLON] + []), b.seconds, Number(b.nanos) + ([SEMICOLON] + []), COLON);
      NumbersAreExact(n, [], b.nanos, [], SEMICOLON);
    case Triple(x, y, z) =>
      assert rest == Sized(TermKey(sp, x)) + (Sized(TermKey(sp, y)) + Sized(TermKey(sp, z)));
      assert rest == Sized(TermKey(sp, b.t1)) + (Sized(TermKey(sp, b.t2)) + Sized(TermKey(sp, b.t3)));
      TriplesAreExact(TermKey(sp, x), TermKey(sp, y), TermKey(sp, z), TermKey(sp, b.t1), TermKey(sp, b.t2), TermKey(sp, b.t3));
      TermKeyIsExact(sp, x, b.t1);
      TermKeyIsExact(sp, y, b.t2);
      TermKeyIsExact(sp, z, b.t3);
  }

  lemma ValueKeyIsExact(sp: Spelling, a: Option<Term>, b: Option<Term>)
    requires sp.Valid() && ValueKey(sp, a) == ValueKey(sp, b)
    ensures a == b
  {
    hide TermKey;
    if a.Some? && b.Some? {
      TermKeyIsExact(sp, a.value, b.value);
    } else if a.Some? {
      KeysShareKind(sp, a.value, a.value);
    } else if b.Some? {
      KeysShareKind(sp, b.value, b.value);
    }
  }

  lemma {:induction false} ValueKeysAreExact(sp: Spelling, a: QueryRow, b: QueryRow)
    requires sp.Valid() && ValueKeys(sp, a) == ValueKeys(sp, b)
    ensures a == b
    decreases |a|
  {
    hide Sized, ValueKey;
    if a != [] && b != [] {
      SizedIsExact(ValueKey(sp, a[0]), ValueKeys(sp, a[1..]), ValueKey(sp, b[0]), ValueKeys(sp, b[1..]));
      ValueKeyIsExact(sp, a[0], b[0]);
      ValueKeysAreExact(sp, a[1..], b[1..]);
      assert a == [a[0]] + a[1..] && b == [b[0]] + b[1..];
    } else if a != [] || b != [] {
      SizedIsNotEmpty(if a != [] then ValueKey(sp, a[0]) else ValueKey(sp, b[0]));
    }
  }

  lemma SizedIsNotEmpty(u: Units)
    ensures Sized(u) != []
  {
  }

  /** No two rows share a key. */
  lemma RowKeyIsExact(sp: Spelling, a: QueryRow, b: QueryRow)
    requires sp.Valid() && RowKey(sp, a) == RowKey(sp, b)
    ensures a == b
  {
    hide ValueKeys;
    TagAndRest(114, ValueKeys(sp, a));
    TagAndRest(114, ValueKeys(sp, b));
    ValueKeysAreExact(sp, a, b);
  }

  // ----- the order of keys -----

  /** How the host compares texts: by the first unit that differs, or else the shorter first. */
  predicate Below(a: Units, b: Units) {
    b != [] && (a == [] || a[0] < b[0] || (a[0] == b[0] && Below(a[1..], b[1..])))
  }

  lemma {:induction false} BelowIsTotal(a: Units, b: Units)
    ensures a == b || Below(a, b) || Below(b, a)
    ensures !(Below(a, b) && Below(b, a)) && !Below(a, a)
  {
    if a != [] {
      BelowIsTotal(a[1..], a[1..]);
    }
    if a != [] && b != [] {
      BelowIsTotal(a[1..], b[1..]);
      assert a == [a[0]] + a[1..] && b == [b[0]] + b[1..];
    }
  }

  lemma {:induction false} BelowIsTransitive(a: Units, b: Units, c: Units)
    requires Below(a, b) && Below(b, c)
    ensures Below(a, c)
  {
    if a != [] && b != [] && c != [] && a[0] == b[0] == c[0] {
      BelowIsTransitive(a[1..], b[1..], c[1..]);
    }
  }

  /** Strictly ascending by key. */
  ghost predicate Ascending(sp: Spelling, rows: seq<QueryRow>) {
    forall i, j :: 0 <= i < j < |rows| ==> Below(RowKey(sp, rows[i]), RowKey(sp, rows[j]))
  }

  // ----- sorting -----

  function Insert(sp: Spelling, row: QueryRow, rows: seq<QueryRow>): seq<QueryRow> {
    if rows == [] || Below(RowKey(sp, row), RowKey(sp, rows[0])) then [row] + rows
    else [rows[0]] + Insert(sp, row, rows[1..])
  }

  /** `sort-by row-key`, on rows in the order the set gives them. */
  function SortByKey(sp: Spelling, rows: seq<QueryRow>): seq<QueryRow>
    decreases |rows|
  {
    if rows == [] then [] else Insert(sp, rows[|rows| - 1], SortByKey(sp, rows[..|rows| - 1]))
  }

  lemma {:induction false} InsertMembers(sp: Spelling, row: QueryRow, rows: seq<QueryRow>)
    ensures multiset(Insert(sp, row, rows)) == multiset(rows) + multiset{row}
  {
    hide RowKey, Below;
    if rows == [] || Below(RowKey(sp, row), RowKey(sp, rows[0])) {
    } else {
      InsertMembers(sp, row, rows[1..]);
      assert rows == [rows[0]] + rows[1..];
    }
  }

  lemma {:induction false} InsertAscends(sp: Spelling, row: QueryRow, rows: seq<QueryRow>)
    requires sp.Valid() && Ascending(sp, rows) && row !in rows
    ensures Ascending(sp, Insert(sp, row, rows))
  {
    hide RowKey, Below;
    if rows == [] {
    } else if Below(RowKey(sp, row), RowKey(sp, rows[0])) {
      var all := [row] + rows;
      forall i, j | 0 <= i < j < |all| ensures Below(RowKey(sp, all[i]), RowKey(sp, all[j])) {
        if i == 0 && j > 1 {
          BelowIsTransitive(RowKey(sp, row), RowKey(sp, rows[0]), RowKey(sp, rows[j - 1]));
        }
      }
    } else {
      var rest := Insert(sp, row, rows[1..]);
      InsertAscends(sp, row, rows[1..]);
      InsertMembers(sp, row, rows[1..]);
      BelowIsTotal(RowKey(sp, row), RowKey(sp, rows[0]));
      if RowKey(sp, row) == RowKey(sp, rows[0]) {
        RowKeyIsExact(sp, row, rows[0]);
      }
      forall j | 0 <= j < |rest| ensures Below(RowKey(sp, rows[0]), RowKey(sp, rest[j])) {
        assert rest[j] in multiset(rest);
        assert rest[j] == row || rest[j] in rows[1..];
      }
    }
  }

  lemma NoneAscend(sp: Spelling)
    ensures Ascending(sp, [])
  {
  }

  /** Sorting rows without repetition gives the same rows in strictly ascending order of their keys. */
  lemma {:induction false} SortByKeySorts(sp: Spelling, rows: seq<QueryRow>)
    requires sp.Valid() && Paging.Distinct(rows)
    ensures Ascending(sp, SortByKey(sp, rows)) && multiset(SortByKey(sp, rows)) == multiset(rows)
    decreases |rows|
  {
    hide Insert, Ascending;
    NoneAscend(sp);
    if rows != [] {
      var n := |rows| - 1;
      SortByKeySorts(sp, rows[..n]);
      var sorted := SortByKey(sp, rows[..n]);
      assert rows == rows[..n] + [rows[n]];
      assert rows[n] !in multiset(rows[..n]);
      assert rows[n] !in multiset(sorted);
      InsertMembers(sp, rows[n], sorted);
      InsertAscends(sp, rows[n], sorted);
    }
  }

  lemma AscendingIsDistinct(sp: Spelling, rows: seq<QueryRow>)
    requires Ascending(sp, rows)
    ensures Paging.Distinct(rows)
  {
    hide Below, RowKey;
    forall i, j | 0 <= i < j < |rows| ensures rows[i] != rows[j] {
      BelowIsTotal(RowKey(sp, rows[i]), RowKey(sp, rows[i]));
    }
  }

  ghost predicate SameMembers(a: seq<QueryRow>, b: seq<QueryRow>) {
    forall row :: row in a <==> row in b
  }

  /** One set of rows has one ascending order. */
  lemma {:induction false} OneOrder(sp: Spelling, a: seq<QueryRow>, b: seq<QueryRow>)
    requires Ascending(sp, a) && Ascending(sp, b) && SameMembers(a, b)
    ensures a == b
    decreases |a|
  {
    hide Below, RowKey;
    if a == [] {
      SomeMember(b);
    } else {
      assert a[0] in b;
      FirstIsLeast(sp, a, b);
      AscendingIsDistinct(sp, a);
      AscendingIsDistinct(sp, b);
      assert a == [a[0]] + a[1..] && b == [b[0]] + b[1..];
      forall row ensures row in a[1..] <==> row in b[1..] {
        assert row in a[1..] <==> row in a && row != a[0];
        assert row in b[1..] <==> row in b && row != b[0];
      }
      OneOrder(sp, a[1..], b[1..]);
    }
  }

  lemma SomeMember(rows: seq<QueryRow>)
    ensures rows == [] || exists row :: row in rows
  {
    if rows != [] {
      assert rows[0] in rows;
    }
  }

  lemma FirstIsLeast(sp: Spelling, a: seq<QueryRow>, b: seq<QueryRow>)
    requires Ascending(sp, a) && Ascending(sp, b) && SameMembers(a, b) && a != [] && b != []
    ensures a[0] == b[0]
  {
    hide Below, RowKey;
    assert a[0] in b && b[0] in a;
    if a[0] != b[0] {
      var i :| 0 <= i < |b| && b[i] == a[0];
      var j :| 0 <= j < |a| && a[j] == b[0];
      BelowIsTotal(RowKey(sp, a[0]), RowKey(sp, b[0]));
      assert false;
    }
  }
}
