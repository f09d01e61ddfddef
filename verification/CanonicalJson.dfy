/**
 stableStringify in core/crypto/routing.js: JSON text with the members of every object
 sorted by key, as in section 3.2.3 of RFC 8785. Two values print alike exactly when they
 are equal up to member order at every depth.
 */
module CanonicalJson {
  import opened JsonText
  import opened Strings

  datatype Json =
    | Undefined
    | Null
    | Bool(b: bool)
    | Num(n: int)
    | Str(s: Text)
    | Arr(elems: seq<Json>)
    | Obj(members: seq<Member>)

  datatype Member = Member(key: Text, value: Json)

  /** A member as printed: its key and the text of its value. */
  datatype Entry = Entry(key: Text, text: Text)

  // ---------------------------------------------------------------------------
  // Sorting by key
  // ---------------------------------------------------------------------------

  /** The order of Array.prototype.sort on strings: by code units, a prefix first. */
  predicate Less(a: Text, b: Text) {
    b != [] && (a == [] || a[0] < b[0] || (a[0] == b[0] && Less(a[1..], b[1..])))
  }

  lemma {:induction false} LessTransitive(a: Text, b: Text, c: Text)
    requires Less(a, b) && Less(b, c)
    ensures Less(a, c)
  {
    if a != [] && a[0] == b[0] == c[0] {
      LessTransitive(a[1..], b[1..], c[1..]);
    }
  }

  lemma {:induction false} LessTrichotomy(a: Text, b: Text)
    ensures Less(a, b) || a == b || Less(b, a)
  {
    if a != [] && b != [] && a[0] == b[0] {
      LessTrichotomy(a[1..], b[1..]);
      assert a == [a[0]] + a[1..] && b == [b[0]] + b[1..];
    }
  }

  lemma {:induction false} LessIrreflexive(a: Text)
    ensures !Less(a, a)
  {
    if a != [] {
      LessIrreflexive(a[1..]);
    }
  }

  function Insert(e: Entry, s: seq<Entry>): (r: seq<Entry>)
    ensures multiset(r) == multiset(s) + multiset{e}
  {
    if s == [] then [e]
    else if Less(s[0].key, e.key) then
      assert s == [s[0]] + s[1..];
      [s[0]] + Insert(e, s[1..])
    else [e] + s
  }

  function SortEntries(s: seq<Entry>): (r: seq<Entry>)
    ensures multiset(r) == multiset(s)
  {
    if s == [] then []
    else
      assert s == [s[0]] + s[1..];
      Insert(s[0], SortEntries(s[1..]))
  }

  ghost predicate DistinctKeys(s: seq<Entry>) {
    forall i, j :: 0 <= i < j < |s| ==> s[i].key != s[j].key
  }

  /** Strictly increasing keys. */
  ghost predicate Sorted(s: seq<Entry>) {
    forall i, j :: 0 <= i < j < |s| ==> Less(s[i].key, s[j].key)
  }

  lemma SameElements(s: seq<Entry>, r: seq<Entry>)
    requires multiset(r) == multiset(s)
    ensures |r| == |s| && forall e :: e in r <==> e in s
  {
    assert |multiset(r)| == |r| && |multiset(s)| == |s|;
    forall e ensures e in r <==> e in s {
      assert e in r <==> e in multiset(r);
      assert e in s <==> e in multiset(s);
    }
  }

  lemma {:induction false} InsertSorted(e: Entry, s: seq<Entry>)
    requires Sorted(s) && forall x :: x in s ==> x.key != e.key
    ensures Sorted(Insert(e, s))
  {
    if s != [] {
      var r := Insert(e, s);
      if Less(s[0].key, e.key) {
        InsertSorted(e, s[1..]);
        forall j | 1 <= j < |r| ensures Less(r[0].key, r[j].key) {
          assert r[j] in multiset(s[1..]) + multiset{e};
        }
      } else {
        LessTrichotomy(s[0].key, e.key);
        assert s[0] in s;
        forall j | 1 <= j < |s| ensures Less(e.key, s[j].key) {
          LessTransitive(e.key, s[0].key, s[j].key);
        }
      }
    }
  }

  lemma {:induction false} SortSorts(s: seq<Entry>)
    requires DistinctKeys(s)
    ensures Sorted(SortEntries(s))
  {
    if s != [] {
      SortSorts(s[1..]);
      SameElements(s[1..], SortEntries(s[1..]));
      InsertSorted(s[0], SortEntries(s[1..]));
    }
  }

  /** A strictly sorted sequence is determined by its elements. */
  lemma {:induction false} SortedUnique(s: seq<Entry>, t: seq<Entry>)
    requires Sorted(s) && Sorted(t) && forall e :: e in s <==> e in t
    ensures s == t
  {
    EmptyAlike(s, t);
    if s != [] {
      SameFirst(s, t);
      SameFirst(t, s);
      LessIrreflexive(s[0].key);
      assert s[0] == t[0] by {
        if s[0] != t[0] {
          LessTransitive(s[0].key, t[0].key, s[0].key);
        }
      }
      forall e ensures e in s[1..] <==> e in t[1..] {
        RestElements(s, e);
        RestElements(t, e);
      }
      SortedUnique(s[1..], t[1..]);
      assert s == [s[0]] + s[1..] && t == [t[0]] + t[1..];
    }
  }

  lemma EmptyAlike(s: seq<Entry>, t: seq<Entry>)
    requires forall e :: e in s <==> e in t
    ensures s == [] <==> t == []
  {
    if s != [] {
      assert s[0] in s;
    }
    if t != [] {
      assert t[0] in t;
    }
  }

  lemma SameFirst(s: seq<Entry>, t: seq<Entry>)
    requires Sorted(t) && s != [] && t != [] && s[0] in t
    ensures s[0] == t[0] || Less(t[0].key, s[0].key)
  {
  }

  lemma RestElements(s: seq<Entry>, e: Entry)
    requires Sorted(s) && s != []
    ensures e in s[1..] <==> e in s && e != s[0]
  {
    if e in s[1..] {
      var j :| 0 <= j < |s[1..]| && s[1..][j] == e;
      assert s[j + 1] == e;
      LessIrreflexive(e.key);
    }
    if e in s && e != s[0] {
      var j :| 0 <= j < |s| && s[j] == e;
      assert s[1..][j - 1] == e;
    }
  }

  // ---------------------------------------------------------------------------
  // The printer
  // ---------------------------------------------------------------------------

  function Join(parts: seq<Text>): Text {
    if parts == [] then []
    else if |parts| == 1 then parts[0]
    else parts[0] + [COMMA] + Join(parts[1..])
  }

  function EntryText(e: Entry): Text { Quote(e.key) + [COLON] + e.text }

  function EntryTexts(s: seq<Entry>): (r: seq<Text>)
    ensures |r| == |s|
  {
    seq(|s|, i requires 0 <= i < |s| => EntryText(s[i]))
  }

  function Stringify(v: Json): Text
    decreases v, 1
  {
    match v
    case Undefined => UNDEFINED
    case Null => NULL
    case Bool(b) => if b then TRUE else FALSE
    case Num(n) => Number(n)
    case Str(s) => Quote(s)
    case Arr(_) => [OPEN_BRACKET] + Join(ElementTexts(v)) + [CLOSE_BRACKET]
    case Obj(_) => [OPEN_BRACE] + Join(EntryTexts(SortEntries(Entries(v)))) + [CLOSE_BRACE]
  }

  /** Array.prototype.join writes nothing for an undefined element. */
  function ElementText(e: Json): Text
    decreases e, 2
  {
    if e == Undefined then [] else Stringify(e)
  }

  function ElementTexts(v: Json): (r: seq<Text>)
    requires v.Arr?
    ensures |r| == |v.elems|
    decreases v, 0
  {
    seq(|v.elems|, i requires 0 <= i < |v.elems| => ElementText(v.elems[i]))
  }

  function Entries(v: Json): (r: seq<Entry>)
    requires v.Obj?
    ensures |r| == |v.members|
    decreases v, 0
  {
    seq(|v.members|, i requires 0 <= i < |v.members| => Entry(v.members[i].key, Stringify(v.members[i].value)))
  }

  // ---------------------------------------------------------------------------
  // Equality up to member order
  // ---------------------------------------------------------------------------

  /** Object keys are distinct, and no array is a lone undefined. */
  ghost predicate Proper(v: Json) {
    match v
    case Arr(es) => es != [Undefined] && forall i :: 0 <= i < |es| ==> Proper(es[i])
    case Obj(ms) =>
      && (forall i, j :: 0 <= i < j < |ms| ==> ms[i].key != ms[j].key)
      && forall i :: 0 <= i < |ms| ==> Proper(ms[i].value)
    case _ => true
  }

  ghost predicate Equivalent(v: Json, w: Json)
    decreases v, 0
  {
    match v
    case Arr(es) =>
      w.Arr? && |es| == |w.elems| && forall i :: 0 <= i < |es| ==> Equivalent(es[i], w.elems[i])
    case Obj(ms) =>
      && w.Obj?
      && (forall i :: 0 <= i < |ms| ==> HasPartner(ms[i], w.members))
      && (forall j :: 0 <= j < |w.members| ==> HasOrigin(ms, w.members[j]))
    case _ => v == w
  }

  ghost predicate SameMember(m: Member, m': Member)
    decreases m, 0
  {
    m.key == m'.key && Equivalent(m.value, m'.value)
  }

  ghost predicate HasPartner(m: Member, ns: seq<Member>)
    decreases m, 1
  {
    exists j :: 0 <= j < |ns| && SameMember(m, ns[j])
  }

  ghost predicate HasOrigin(ms: seq<Member>, n: Member)
    decreases ms, 0
  {
    exists i :: 0 <= i < |ms| && SameMember(ms[i], n)
  }

  // ---------------------------------------------------------------------------
  // Equivalent values print alike
  // ---------------------------------------------------------------------------

  lemma EntriesSorted(v: Json)
    requires v.Obj? && Proper(v)
    ensures var s := SortEntries(Entries(v));
            Sorted(s) && |s| == |v.members| && forall e :: e in s <==> e in Entries(v)
  {
    SortSorts(Entries(v));
    SameElements(Entries(v), SortEntries(Entries(v)));
  }

  lemma {:induction false} EquivalentPrints(v: Json, w: Json)
    requires Proper(v) && Proper(w) && Equivalent(v, w)
    ensures Stringify(v) == Stringify(w)
    decreases v, 1
  {
    if v.Arr? {
      EquivalentArrays(v, w);
    } else if v.Obj? {
      EntriesSorted(v);
      EntriesSorted(w);
      EquivalentObjects(v, w);
      SortedUnique(SortEntries(Entries(v)), SortEntries(Entries(w)));
    }
  }

  lemma EquivalentArrays(v: Json, w: Json)
    requires v.Arr? && Proper(v) && Proper(w) && Equivalent(v, w)
    ensures ElementTexts(v) == ElementTexts(w)
    decreases v, 0
  {
    forall i | 0 <= i < |v.elems| ensures ElementText(v.elems[i]) == ElementText(w.elems[i]) {
      EquivalentPrints(v.elems[i], w.elems[i]);
      UndefinedAlone(v.elems[i], w.elems[i]);
    }
  }

  lemma EntryMatches(v: Json, w: Json, i: nat, j: nat)
    requires v.Obj? && w.Obj? && Proper(v) && Proper(w)
    requires i < |v.members| && j < |w.members| && SameMember(v.members[i], w.members[j])
    ensures Entries(v)[i] == Entries(w)[j]
    decreases v, 0, 0
  {
    EquivalentPrints(v.members[i].value, w.members[j].value);
  }

  lemma EntriesInto(v: Json, w: Json, i: nat)
    requires v.Obj? && Proper(v) && Proper(w) && Equivalent(v, w) && i < |v.members|
    ensures Entries(v)[i] in Entries(w)
    decreases v, 0, 1
  {
    assert HasPartner(v.members[i], w.members);
    var j :| 0 <= j < |w.members| && SameMember(v.members[i], w.members[j]);
    EntryMatches(v, w, i, j);
  }

  lemma EntriesFrom(v: Json, w: Json, j: nat)
    requires v.Obj? && Proper(v) && Proper(w) && Equivalent(v, w) && j < |w.members|
    ensures Entries(w)[j] in Entries(v)
    decreases v, 0, 1
  {
    assert HasOrigin(v.members, w.members[j]);
    var i :| 0 <= i < |v.members| && SameMember(v.members[i], w.members[j]);
    EntryMatches(v, w, i, j);
  }

  lemma EquivalentObjects(v: Json, w: Json)
    requires v.Obj? && w.Obj? && Proper(v) && Proper(w) && Equivalent(v, w)
    ensures forall e :: e in Entries(v) <==> e in Entries(w)
    decreases v, 0, 2
  {
    var s, t := Entries(v), Entries(w);
    forall i | 0 <= i < |s| ensures s[i] in t {
      EntriesInto(v, w, i);
    }
    forall j | 0 <= j < |t| ensures t[j] in s {
      EntriesFrom(v, w, j);
    }
  }

  lemma UndefinedAlone(v: Json, w: Json)
    requires Equivalent(v, w)
    ensures v == Undefined <==> w == Undefined
  {
  }

  // ---------------------------------------------------------------------------
  // Values that print alike are equivalent
  // ---------------------------------------------------------------------------

  /** What may follow a value inside a larger text. */
  predicate Delimited(r: Text) {
    r == [] || r[0] == COMMA || r[0] == CLOSE_BRACKET || r[0] == CLOSE_BRACE
  }

  /** The first unit of a text tells the kind of value. */
  lemma FirstUnit(v: Json)
    ensures Stringify(v) != []
    ensures var c := Stringify(v)[0];
            && (v.Undefined? <==> c == 117) && (v.Null? <==> c == 110)
            && (v == Bool(true) <==> c == 116) && (v == Bool(false) <==> c == 102)
            && (v.Num? <==> IsDigit(c) || c == MINUS) && (v.Str? <==> c == QUOTE)
            && (v.Arr? <==> c == OPEN_BRACKET) && (v.Obj? <==> c == OPEN_BRACE)
  {
    match v
    case Num(n) => NumberSign(n);
    case _ =>
  }

  lemma SameKind(v: Json, w: Json, r: Text, r': Text)
    requires Stringify(v) + r == Stringify(w) + r'
    ensures v.Undefined? == w.Undefined? && v.Null? == w.Null? && v.Bool? == w.Bool? && v.Num? == w.Num?
    ensures v.Str? == w.Str? && v.Arr? == w.Arr? && v.Obj? == w.Obj?
    ensures v.Bool? ==> v == w
  {
    FirstUnit(v);
    FirstUnit(w);
    assert Stringify(v)[0] == (Stringify(v) + r)[0] && Stringify(w)[0] == (Stringify(w) + r')[0];
  }

  lemma {:induction false} Unique(v: Json, w: Json, r: Text, r': Text)
    requires Proper(v) && Proper(w) && Delimited(r) && Delimited(r')
    requires Stringify(v) + r == Stringify(w) + r'
    ensures Equivalent(v, w) && r == r'
    decreases v, 1, 0
  {
    SameKind(v, w, r, r');
    match v {
      case Num(n) => NumberUnique(n, w.n, r, r');
      case Str(s) => QuoteUnique(s, w.s, r, r');
      case Arr(es) =>
        Bracketed(OPEN_BRACKET, CLOSE_BRACKET, Join(ElementTexts(v)), Join(ElementTexts(w)), r, r');
        ArrayUnique(v, w, r, r');
      case Obj(ms) =>
        Bracketed(OPEN_BRACE, CLOSE_BRACE, Join(EntryTexts(SortEntries(Entries(v)))),
                  Join(EntryTexts(SortEntries(Entries(w)))), r, r');
        ObjectUnique(v, w, r, r');
      case _ =>
        SplitEqual(Stringify(v), Stringify(w), r, r');
    }
  }

  lemma Bracketed(open: CodeUnit, close: CodeUnit, x: Text, y: Text, r: Text, r': Text)
    requires ([open] + x + [close]) + r == ([open] + y + [close]) + r'
    ensures x + ([close] + r) == y + ([close] + r')
  {
    assert ([open] + x + [close]) + r == [open] + (x + ([close] + r));
    assert ([open] + y + [close]) + r' == [open] + (y + ([close] + r'));
    SplitEqual([open], [open], x + ([close] + r), y + ([close] + r'));
  }

  /** What follows part k in a joined text that ends with close and r. */
  function After(parts: seq<Text>, k: nat, close: CodeUnit, r: Text): (q: Text)
    requires k < |parts|
    ensures q != [] && q[0] == if k == |parts| - 1 then close else COMMA
  {
    if k == |parts| - 1 then [close] + r else [COMMA] + (Join(parts[k + 1..]) + ([close] + r))
  }

  lemma JoinFrom(parts: seq<Text>, k: nat, close: CodeUnit, r: Text)
    requires k < |parts|
    ensures Join(parts[k..]) + ([close] + r) == parts[k] + After(parts, k, close, r)
  {
    if k < |parts| - 1 {
      assert parts[k..][1..] == parts[k + 1..];
      Reassociate(parts[k], COMMA, Join(parts[k + 1..]), [close] + r);
    }
  }

  lemma Reassociate(x: Text, c: CodeUnit, y: Text, z: Text)
    ensures (x + [c] + y) + z == x + ([c] + (y + z))
  {
  }

  /** Equal continuations: both lists end here, or both go on with equal texts. */
  lemma AfterEqual(parts: seq<Text>, parts': seq<Text>, k: nat, close: CodeUnit, r: Text, r': Text)
    requires k < |parts| && k < |parts'| && close != COMMA
    requires After(parts, k, close, r) == After(parts', k, close, r')
    ensures k == |parts| - 1 <==> k == |parts'| - 1
    ensures k == |parts| - 1 ==> r == r'
    ensures k < |parts| - 1 ==> Join(parts[k + 1..]) + ([close] + r) == Join(parts'[k + 1..]) + ([close] + r')
  {
    if k == |parts| - 1 {
      SplitEqual([close], [close], r, r');
    } else {
      SplitEqual([COMMA], [COMMA], Join(parts[k + 1..]) + ([close] + r), Join(parts'[k + 1..]) + ([close] + r'));
    }
  }

  lemma JoinNothing(parts: seq<Text>, close: CodeUnit, r: Text)
    requires parts == []
    ensures Join(parts) + ([close] + r) == [close] + r
  {
  }

  // Arrays

  lemma ElementUnique(e: Json, f: Json, q: Text, q': Text)
    requires Proper(e) && Proper(f) && Delimited(q) && Delimited(q') && q != [] && q' != []
    requires ElementText(e) + q == ElementText(f) + q'
    ensures Equivalent(e, f) && q == q'
    decreases e, 2, 0
  {
    FirstUnit(e);
    FirstUnit(f);
    assert (Stringify(e) + q)[0] == Stringify(e)[0];
    assert (Stringify(f) + q')[0] == Stringify(f)[0];
    assert [] + q == q && [] + q' == q';
    if e != Undefined && f != Undefined {
      Unique(e, f, q, q');
    }
  }

  lemma ArrayEmpty(v: Json, r: Text)
    requires v.Arr? && Proper(v)
    ensures var t := Join(ElementTexts(v)) + ([CLOSE_BRACKET] + r);
            t[0] == CLOSE_BRACKET <==> v.elems == []
  {
    assert |v.elems| == 1 ==> v.elems == [v.elems[0]];
    if v.elems != [] {
      var parts := ElementTexts(v);
      JoinFrom(parts, 0, CLOSE_BRACKET, r);
      assert parts[0..] == parts;
      var q := After(parts, 0, CLOSE_BRACKET, r);
      FirstUnit(v.elems[0]);
      if v.elems[0] == Undefined {
        assert parts[0] + q == q;
      } else {
        assert parts[0] == ElementText(v.elems[0]) == Stringify(v.elems[0]);
        assert (parts[0] + q)[0] == parts[0][0];
      }
    }
  }

  lemma ArrayUnique(v: Json, w: Json, r: Text, r': Text)
    requires v.Arr? && w.Arr? && Proper(v) && Proper(w)
    requires Join(ElementTexts(v)) + ([CLOSE_BRACKET] + r) == Join(ElementTexts(w)) + ([CLOSE_BRACKET] + r')
    ensures Equivalent(v, w) && r == r'
    decreases v, 0, |v.elems| + 1
  {
    ArrayEmpty(v, r);
    ArrayEmpty(w, r');
    if v.elems == [] {
      JoinNothing(ElementTexts(v), CLOSE_BRACKET, r);
      JoinNothing(ElementTexts(w), CLOSE_BRACKET, r');
      SplitEqual([CLOSE_BRACKET], [CLOSE_BRACKET], r, r');
    } else {
      assert ElementTexts(v)[0..] == ElementTexts(v) && ElementTexts(w)[0..] == ElementTexts(w);
      ArrayRest(v, w, 0, r, r');
    }
  }

  lemma {:induction false} ArrayRest(v: Json, w: Json, k: nat, r: Text, r': Text)
    requires v.Arr? && w.Arr? && Proper(v) && Proper(w) && k < |v.elems| && k < |w.elems|
    requires Join(ElementTexts(v)[k..]) + ([CLOSE_BRACKET] + r) == Join(ElementTexts(w)[k..]) + ([CLOSE_BRACKET] + r')
    ensures |v.elems| == |w.elems| && r == r'
    ensures forall i :: k <= i < |v.elems| ==> Equivalent(v.elems[i], w.elems[i])
    decreases v, 0, |v.elems| - k
  {
    ArrayStep(v, w, k, r, r');
    AfterEqual(ElementTexts(v), ElementTexts(w), k, CLOSE_BRACKET, r, r');
    if k < |v.elems| - 1 {
      ArrayRest(v, w, k + 1, r, r');
    }
  }

  lemma ArrayStep(v: Json, w: Json, k: nat, r: Text, r': Text)
    requires v.Arr? && w.Arr? && Proper(v) && Proper(w) && k < |v.elems| && k < |w.elems|
    requires Join(ElementTexts(v)[k..]) + ([CLOSE_BRACKET] + r) == Join(ElementTexts(w)[k..]) + ([CLOSE_BRACKET] + r')
    ensures Equivalent(v.elems[k], w.elems[k])
    ensures After(ElementTexts(v), k, CLOSE_BRACKET, r) == After(ElementTexts(w), k, CLOSE_BRACKET, r')
    decreases v, 0, 0
  {
    var parts, parts' := ElementTexts(v), ElementTexts(w);
    JoinFrom(parts, k, CLOSE_BRACKET, r);
    JoinFrom(parts', k, CLOSE_BRACKET, r');
    ElementUnique(v.elems[k], w.elems[k], After(parts, k, CLOSE_BRACKET, r), After(parts', k, CLOSE_BRACKET, r'));
  }

  // Objects

  /** v and w both have a member of this name, with equivalent values. */
  ghost predicate Matched(v: Json, w: Json, key: Text)
    requires v.Obj? && w.Obj?
  {
    exists i, j :: 0 <= i < |v.members| && 0 <= j < |w.members| && v.members[i].key == key == w.members[j].key &&
                   SameMember(v.members[i], w.members[j])
  }

  /** From place k on, two sorted lists of entries name the same matched members. */
  ghost predicate AllMatched(v: Json, w: Json, s: seq<Entry>, t: seq<Entry>, k: nat)
    requires v.Obj? && w.Obj?
  {
    |s| == |t| && forall i :: k <= i < |s| ==> s[i].key == t[i].key && Matched(v, w, s[i].key)
  }

  lemma EntryUnique(x: Entry, y: Entry, q: Text, q': Text)
    requires EntryText(x) + q == EntryText(y) + q'
    ensures x.key == y.key && x.text + q == y.text + q'
  {
    Reassociate(Quote(x.key), COLON, x.text, q);
    Reassociate(Quote(y.key), COLON, y.text, q');
    QuoteUnique(x.key, y.key, [COLON] + (x.text + q), [COLON] + (y.text + q'));
    SplitEqual([COLON], [COLON], x.text + q, y.text + q');
  }

  lemma ObjectEmpty(v: Json, r: Text)
    requires v.Obj? && Proper(v)
    ensures var t := Join(EntryTexts(SortEntries(Entries(v)))) + ([CLOSE_BRACE] + r);
            t[0] == CLOSE_BRACE <==> v.members == []
  {
    EntriesSorted(v);
    if v.members != [] {
      var parts := EntryTexts(SortEntries(Entries(v)));
      JoinFrom(parts, 0, CLOSE_BRACE, r);
      assert parts[0..] == parts;
      assert (parts[0] + After(parts, 0, CLOSE_BRACE, r))[0] == QUOTE;
    }
  }

  lemma ObjectUnique(v: Json, w: Json, r: Text, r': Text)
    requires v.Obj? && w.Obj? && Proper(v) && Proper(w)
    requires Join(EntryTexts(SortEntries(Entries(v)))) + ([CLOSE_BRACE] + r)
          == Join(EntryTexts(SortEntries(Entries(w)))) + ([CLOSE_BRACE] + r')
    ensures Equivalent(v, w) && r == r'
    decreases v, 0, |SortEntries(Entries(v))| + 2
  {
    ObjectEmpty(v, r);
    ObjectEmpty(w, r');
    var s, t := SortEntries(Entries(v)), SortEntries(Entries(w));
    EntriesSorted(v);
    EntriesSorted(w);
    if v.members == [] {
      JoinNothing(EntryTexts(s), CLOSE_BRACE, r);
      JoinNothing(EntryTexts(t), CLOSE_BRACE, r');
      SplitEqual([CLOSE_BRACE], [CLOSE_BRACE], r, r');
    } else {
      assert EntryTexts(s)[0..] == EntryTexts(s) && EntryTexts(t)[0..] == EntryTexts(t);
      ObjectRest(v, w, s, t, 0, r, r');
      MatchedEverywhere(v, w);
    }
  }

  lemma {:induction false} ObjectRest(v: Json, w: Json, s: seq<Entry>, t: seq<Entry>, k: nat, r: Text, r': Text)
    requires v.Obj? && w.Obj? && Proper(v) && Proper(w)
    requires s == SortEntries(Entries(v)) && t == SortEntries(Entries(w)) && k < |s| && k < |t|
    requires Join(EntryTexts(s)[k..]) + ([CLOSE_BRACE] + r) == Join(EntryTexts(t)[k..]) + ([CLOSE_BRACE] + r')
    ensures AllMatched(v, w, s, t, k) && r == r'
    decreases v, 0, |s| - k + 1
  {
    ObjectStep(v, w, s, t, k, r, r');
    AfterEqual(EntryTexts(s), EntryTexts(t), k, CLOSE_BRACE, r, r');
    if k < |s| - 1 {
      ObjectRest(v, w, s, t, k + 1, r, r');
    }
  }

  lemma ObjectStep(v: Json, w: Json, s: seq<Entry>, t: seq<Entry>, k: nat, r: Text, r': Text)
    requires v.Obj? && w.Obj? && Proper(v) && Proper(w)
    requires s == SortEntries(Entries(v)) && t == SortEntries(Entries(w)) && k < |s| && k < |t|
    requires Join(EntryTexts(s)[k..]) + ([CLOSE_BRACE] + r) == Join(EntryTexts(t)[k..]) + ([CLOSE_BRACE] + r')
    ensures s[k].key == t[k].key && Matched(v, w, s[k].key)
    ensures After(EntryTexts(s), k, CLOSE_BRACE, r) == After(EntryTexts(t), k, CLOSE_BRACE, r')
    decreases v, 0, 0
  {
    var q, q' := After(EntryTexts(s), k, CLOSE_BRACE, r), After(EntryTexts(t), k, CLOSE_BRACE, r');
    JoinFrom(EntryTexts(s), k, CLOSE_BRACE, r);
    JoinFrom(EntryTexts(t), k, CLOSE_BRACE, r');
    EntryUnique(s[k], t[k], q, q');
    var i := MemberOf(v, k);
    var j := MemberOf(w, k);
    Unique(v.members[i].value, w.members[j].value, q, q');
    assert SameMember(v.members[i], w.members[j]);
  }

  /** The member behind entry k of the sorted list. */
  lemma MemberOf(v: Json, k: nat) returns (i: nat)
    requires v.Obj? && Proper(v) && k < |SortEntries(Entries(v))|
    ensures i < |v.members|
    ensures SortEntries(Entries(v))[k] == Entry(v.members[i].key, Stringify(v.members[i].value))
  {
    EntriesSorted(v);
    var e := SortEntries(Entries(v))[k];
    assert e in Entries(v);
    i :| 0 <= i < |Entries(v)| && Entries(v)[i] == e;
  }

  /** The place of member i in the sorted list. */
  lemma PlaceOf(v: Json, i: nat) returns (k: nat)
    requires v.Obj? && Proper(v) && i < |v.members|
    ensures k < |SortEntries(Entries(v))| && SortEntries(Entries(v))[k].key == v.members[i].key
  {
    EntriesSorted(v);
    var e := Entries(v)[i];
    assert e in SortEntries(Entries(v));
    k :| 0 <= k < |SortEntries(Entries(v))| && SortEntries(Entries(v))[k] == e;
  }

  lemma MatchedEverywhere(v: Json, w: Json)
    requires v.Obj? && w.Obj? && Proper(v) && Proper(w)
    requires AllMatched(v, w, SortEntries(Entries(v)), SortEntries(Entries(w)), 0)
    ensures Equivalent(v, w)
  {
    forall i | 0 <= i < |v.members| ensures HasPartner(v.members[i], w.members) {
      PartnerAt(v, w, i);
    }
    forall j | 0 <= j < |w.members| ensures HasOrigin(v.members, w.members[j]) {
      OriginAt(v, w, j);
    }
  }

  lemma PartnerAt(v: Json, w: Json, i: nat)
    requires v.Obj? && w.Obj? && Proper(v) && Proper(w) && i < |v.members|
    requires AllMatched(v, w, SortEntries(Entries(v)), SortEntries(Entries(w)), 0)
    ensures HasPartner(v.members[i], w.members)
  {
    var k := PlaceOf(v, i);
    assert Matched(v, w, v.members[i].key);
    var i', j :| 0 <= i' < |v.members| && 0 <= j < |w.members| &&
                 v.members[i'].key == v.members[i].key == w.members[j].key && SameMember(v.members[i'], w.members[j]);
    assert i' == i;
  }

  lemma OriginAt(v: Json, w: Json, j: nat)
    requires v.Obj? && w.Obj? && Proper(v) && Proper(w) && j < |w.members|
    requires AllMatched(v, w, SortEntries(Entries(v)), SortEntries(Entries(w)), 0)
    ensures HasOrigin(v.members, w.members[j])
  {
    var k := PlaceOf(w, j);
    assert Matched(v, w, w.members[j].key);
    var i, j' :| 0 <= i < |v.members| && 0 <= j' < |w.members| &&
                 v.members[i].key == w.members[j].key == w.members[j'].key && SameMember(v.members[i], w.members[j']);
    assert j' == j;
  }

  // ---------------------------------------------------------------------------
  // Main results
  // ---------------------------------------------------------------------------

  /** stableStringify is a canonical form. */
  lemma Canonical(v: Json, w: Json)
    requires Proper(v) && Proper(w)
    ensures Stringify(v) == Stringify(w) <==> Equivalent(v, w)
  {
    if Equivalent(v, w) {
      EquivalentPrints(v, w);
    }
    if Stringify(v) == Stringify(w) {
      assert Stringify(v) + [] == Stringify(w) + [];
      Unique(v, w, [], []);
    }
  }

  /** Outside JSON it is not: an array holding one undefined prints like the empty array. */
  lemma LoneUndefinedCollides()
    ensures Stringify(Arr([Undefined])) == Stringify(Arr([]))
    ensures !Equivalent(Arr([Undefined]), Arr([]))
  {
    assert ElementTexts(Arr([Undefined])) == [[]];
    assert ElementTexts(Arr([])) == [];
  }
}
