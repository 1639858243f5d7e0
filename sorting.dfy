/** The store's sort: a list of (field, direction) keys compared
    lexicographically, and a sort of task lists by such a key list. */
module Sorting {
  import opened Records

  /** The sortable fields. A missing due date has no place in the order of
      dates; where it goes is the store's choice, given by `nullsLow`
      (true: below every date, false: above every date). */
  datatype Field = CreatedAt | Title | DueDate(nullsLow: bool)

  /** One entry of a sort specification, `(field, 1)` or `(field, -1)`. */
  datatype SortKey = SortKey(field: Field, ascending: bool)

  function CmpInt(x: int, y: int): (c: int)
    ensures c < 0 <==> x < y
    ensures c == 0 <==> x == y
    ensures -1 <= c <= 1
  {
    if x < y then -1 else if x > y then 1 else 0
  }

  /** Lexicographic comparison of strings by code point. */
  function CmpStr(s: string, t: string): (c: int)
    ensures -1 <= c <= 1
  {
    if s == [] && t == [] then 0
    else if s == [] then -1
    else if t == [] then 1
    else if s[0] < t[0] then -1
    else if s[0] > t[0] then 1
    else CmpStr(s[1..], t[1..])
  }

  /** The string order stated directly: `s` is a proper prefix of `t`, or
      `s` has the smaller character at the first position where they differ. */
  ghost predicate LexLess(s: string, t: string) {
    (|s| < |t| && s == t[..|s|])
    || exists k :: 0 <= k < |s| && k < |t| && s[..k] == t[..k] && s[k] < t[k]
  }

  /** CmpStr agrees with the direct definition of the string order. */
  lemma {:induction false} CmpStrMeaning(s: string, t: string)
    ensures CmpStr(s, t) < 0 <==> LexLess(s, t)
    ensures CmpStr(s, t) == 0 <==> s == t
  {
    if s == [] || t == [] {
      if s != [] {
        assert !LexLess(s, t);
      }
    } else if s[0] < t[0] {
      assert s[..0] == t[..0];
    } else if s[0] > t[0] {
      assert |s| < |t| ==> t[..|s|][0] == t[0];
      forall k | 0 < k <= |s| && k <= |t|
        ensures s[..k][0] == s[0] && t[..k][0] == t[0]
      {
      }
    } else {
      CmpStrMeaning(s[1..], t[1..]);
      LexLessTail(s, t);
      if s[1..] == t[1..] { assert s == [s[0]] + s[1..] && t == [t[0]] + t[1..]; }
    }
  }

  /** With equal first characters, the order is decided by the tails. */
  lemma LexLessTail(s: string, t: string)
    requires s != [] && t != [] && s[0] == t[0]
    ensures LexLess(s, t) <==> LexLess(s[1..], t[1..])
  {
    if LexLess(s, t) { LexLessDrop(s, t); }
    if LexLess(s[1..], t[1..]) { LexLessCons(s, t); }
  }

  lemma LexLessDrop(s: string, t: string)
    requires s != [] && t != [] && s[0] == t[0] && LexLess(s, t)
    ensures LexLess(s[1..], t[1..])
  {
    var s', t' := s[1..], t[1..];
    if |s| < |t| && s == t[..|s|] {
      assert s' == t'[..|s'|];
    } else {
      var k :| 0 <= k < |s| && k < |t| && s[..k] == t[..k] && s[k] < t[k];
      assert k > 0;
      assert s'[..k - 1] == s[..k][1..];
      assert t'[..k - 1] == t[..k][1..];
      assert s'[k - 1] < t'[k - 1];
    }
  }

  lemma LexLessCons(s: string, t: string)
    requires s != [] && t != [] && s[0] == t[0] && LexLess(s[1..], t[1..])
    ensures LexLess(s, t)
  {
    var s', t' := s[1..], t[1..];
    if |s'| < |t'| && s' == t'[..|s'|] {
      assert s == [s[0]] + s';
      assert t[..|s|] == [t[0]] + t'[..|s'|];
    } else {
      var k :| 0 <= k < |s'| && k < |t'| && s'[..k] == t'[..k] && s'[k] < t'[k];
      assert s[..k + 1] == [s[0]] + s'[..k];
      assert t[..k + 1] == [t[0]] + t'[..k];
      assert s[k + 1] < t[k + 1];
    }
  }

  lemma {:induction false} CmpStrAntisym(s: string, t: string)
    ensures CmpStr(s, t) == -CmpStr(t, s)
  {
    if s != [] && t != [] && s[0] == t[0] {
      CmpStrAntisym(s[1..], t[1..]);
    }
  }

  lemma {:induction false} CmpStrTrans(s: string, t: string, u: string)
    requires CmpStr(s, t) <= 0 && CmpStr(t, u) <= 0
    ensures CmpStr(s, u) <= 0
  {
    if s != [] && t != [] && u != [] && s[0] == t[0] == u[0] {
      CmpStrTrans(s[1..], t[1..], u[1..]);
    }
  }

  /** Comparison of optional due dates, with missing dates placed by `nullsLow`. */
  function CmpDue(x: Option<Date>, y: Option<Date>, nullsLow: bool): (c: int)
    ensures x.Some? && y.Some? ==> c == CmpInt(x.value, y.value)
    ensures x.None? && y.None? ==> c == 0
    ensures x.None? && y.Some? ==> (c < 0 <==> nullsLow)
    ensures x.Some? && y.None? ==> (c < 0 <==> !nullsLow)
    ensures -1 <= c <= 1
  {
    match (x, y)
    case (None, None) => 0
    case (None, Some(_)) => if nullsLow then -1 else 1
    case (Some(_), None) => if nullsLow then 1 else -1
    case (Some(d), Some(e)) => CmpInt(d, e)
  }

  function CmpField(f: Field, a: Task, b: Task): (c: int)
    ensures -1 <= c <= 1
  {
    match f
    case CreatedAt => CmpInt(a.createdAt, b.createdAt)
    case Title => CmpStr(a.title, b.title)
    case DueDate(nullsLow) => CmpDue(a.dueDate, b.dueDate, nullsLow)
  }

  lemma CmpFieldAntisym(f: Field, a: Task, b: Task)
    ensures CmpField(f, a, b) == -CmpField(f, b, a)
  {
    if f == Title { CmpStrAntisym(a.title, b.title); }
  }

  lemma CmpFieldTrans(f: Field, a: Task, b: Task, c: Task)
    requires CmpField(f, a, b) <= 0 && CmpField(f, b, c) <= 0
    ensures CmpField(f, a, c) <= 0
  {
    if f == Title { CmpStrTrans(a.title, b.title, c.title); }
  }

  /** One key: a descending key compares the two tasks the other way round. */
  function CmpKey(k: SortKey, a: Task, b: Task): int {
    if k.ascending then CmpField(k.field, a, b) else CmpField(k.field, b, a)
  }

  /** Lexicographic comparison over a key list: the first key that tells the two tasks apart decides. */
  function Compare(keys: seq<SortKey>, a: Task, b: Task): (c: int)
    ensures -1 <= c <= 1
  {
    if keys == [] then 0
    else
      var c := CmpKey(keys[0], a, b);
      if c != 0 then c else Compare(keys[1..], a, b)
  }

  lemma {:induction false} CompareAntisym(keys: seq<SortKey>, a: Task, b: Task)
    ensures Compare(keys, a, b) == -Compare(keys, b, a)
  {
    if keys != [] {
      CmpFieldAntisym(keys[0].field, a, b);
      CompareAntisym(keys[1..], a, b);
    }
  }

  lemma CmpKeyTrans(k: SortKey, a: Task, b: Task, c: Task)
    requires CmpKey(k, a, b) <= 0 && CmpKey(k, b, c) <= 0
    ensures CmpKey(k, a, c) <= 0
    ensures CmpKey(k, a, b) < 0 || CmpKey(k, b, c) < 0 ==> CmpKey(k, a, c) < 0
    ensures CmpKey(k, a, b) == 0 && CmpKey(k, b, c) == 0 ==> CmpKey(k, a, c) == 0
  {
    var f := k.field;
    CmpFieldAntisym(f, a, b);
    CmpFieldAntisym(f, b, c);
    CmpFieldAntisym(f, a, c);
    TransAllOrders(f, a, b, c);
  }

  /** Transitivity of one field, instantiated for every ordering of three tasks. */
  lemma TransAllOrders(f: Field, a: Task, b: Task, c: Task)
    ensures CmpField(f, a, b) <= 0 && CmpField(f, b, c) <= 0 ==> CmpField(f, a, c) <= 0
    ensures CmpField(f, a, c) <= 0 && CmpField(f, c, b) <= 0 ==> CmpField(f, a, b) <= 0
    ensures CmpField(f, b, a) <= 0 && CmpField(f, a, c) <= 0 ==> CmpField(f, b, c) <= 0
    ensures CmpField(f, b, c) <= 0 && CmpField(f, c, a) <= 0 ==> CmpField(f, b, a) <= 0
    ensures CmpField(f, c, a) <= 0 && CmpField(f, a, b) <= 0 ==> CmpField(f, c, b) <= 0
    ensures CmpField(f, c, b) <= 0 && CmpField(f, b, a) <= 0 ==> CmpField(f, c, a) <= 0
  {
    if CmpField(f, a, b) <= 0 && CmpField(f, b, c) <= 0 { CmpFieldTrans(f, a, b, c); }
    if CmpField(f, a, c) <= 0 && CmpField(f, c, b) <= 0 { CmpFieldTrans(f, a, c, b); }
    if CmpField(f, b, a) <= 0 && CmpField(f, a, c) <= 0 { CmpFieldTrans(f, b, a, c); }
    if CmpField(f, b, c) <= 0 && CmpField(f, c, a) <= 0 { CmpFieldTrans(f, b, c, a); }
    if CmpField(f, c, a) <= 0 && CmpField(f, a, b) <= 0 { CmpFieldTrans(f, c, a, b); }
    if CmpField(f, c, b) <= 0 && CmpField(f, b, a) <= 0 { CmpFieldTrans(f, c, b, a); }
  }

  /** The key-list comparison is transitive, so it is a total preorder on tasks. */
  lemma {:induction false} CompareTrans(keys: seq<SortKey>, a: Task, b: Task, c: Task)
    requires Compare(keys, a, b) <= 0 && Compare(keys, b, c) <= 0
    ensures Compare(keys, a, c) <= 0
  {
    if keys != [] {
      var k := keys[0];
      CmpKeyTrans(k, a, b, c);
      if CmpKey(k, a, b) == 0 && CmpKey(k, b, c) == 0 {
        CompareTrans(keys[1..], a, b, c);
      }
    }
  }

  /** `s` is in the order the keys ask for. */
  ghost predicate SortedBy(keys: seq<SortKey>, s: seq<Task>) {
    forall i, j {:trigger Compare(keys, s[i], s[j])} :: 0 <= i < j < |s| ==> Compare(keys, s[i], s[j]) <= 0
  }

  /** `x` placed before the first element it does not come after. */
  function Insert(keys: seq<SortKey>, x: Task, s: seq<Task>): (r: seq<Task>)
    requires SortedBy(keys, s)
    ensures SortedBy(keys, r)
    ensures multiset(r) == multiset(s) + multiset{x}
  {
    if s == [] then [x]
    else if Compare(keys, x, s[0]) <= 0 then
      InsertFront(keys, x, s);
      [x] + s
    else
      var rest := Insert(keys, x, s[1..]);
      CompareAntisym(keys, x, s[0]);
      assert s == [s[0]] + s[1..];
      InsertBehind(keys, s[0], x, s[1..], rest);
      [s[0]] + rest
  }

  lemma InsertFront(keys: seq<SortKey>, x: Task, s: seq<Task>)
    requires SortedBy(keys, s) && s != [] && Compare(keys, x, s[0]) <= 0
    ensures SortedBy(keys, [x] + s)
  {
    forall j | 0 < j < |s| ensures Compare(keys, x, s[j]) <= 0 {
      CompareTrans(keys, x, s[0], s[j]);
    }
  }

  lemma InsertBehind(keys: seq<SortKey>, y: Task, x: Task, tail: seq<Task>, rest: seq<Task>)
    requires SortedBy(keys, [y] + tail) && SortedBy(keys, rest)
    requires Compare(keys, y, x) <= 0
    requires multiset(rest) == multiset(tail) + multiset{x}
    ensures SortedBy(keys, [y] + rest)
  {
    forall j | 0 <= j < |rest| ensures Compare(keys, y, rest[j]) <= 0 {
      assert rest[j] in multiset(rest);
      if rest[j] != x {
        assert rest[j] in multiset(tail);
        SortedHead(keys, y, tail, rest[j]);
      }
    }
  }

  /** The head of a sorted list comes before every later element. */
  lemma SortedHead(keys: seq<SortKey>, y: Task, tail: seq<Task>, z: Task)
    requires SortedBy(keys, [y] + tail) && z in tail
    ensures Compare(keys, y, z) <= 0
  {
    var i :| 0 <= i < |tail| && tail[i] == z;
    assert ([y] + tail)[0] == y && ([y] + tail)[i + 1] == z;
  }

  /** The tasks of `s` in key order (an insertion sort, stable in the order of `s`). */
  function Sort(keys: seq<SortKey>, s: seq<Task>): (r: seq<Task>)
    ensures SortedBy(keys, r)
    ensures multiset(r) == multiset(s)
  {
    if s == [] then []
    else
      assert s == [s[0]] + s[1..];
      Insert(keys, s[0], Sort(keys, s[1..]))
  }
}
