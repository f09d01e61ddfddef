/**
 A reader for the grammar of RFC 8259, and the proof that it reads what stableStringify (core/crypto/routing.js)
 prints: the value itself, with the members of every object in rising order of their names.
 */
module JsonReader {
  import opened CanonicalJson
  import opened JsonText
  import opened Results
  import opened Strings

  /** What was read, and what is left of the text. */
  datatype Reading<+T> = Reading(value: T, rest: Text)

  // ---------------------------------------------------------------------------
  // The grammar, without the white space it allows between tokens
  // ---------------------------------------------------------------------------

  function DigitRun(t: Text): (k: nat)
    ensures k <= |t|
  {
    if t != [] && 48 <= t[0] <= 57 then 1 + DigitRun(t[1..]) else 0
  }

  /** Digits without a leading zero. */
  function ReadDigits(t: Text): (r: Option<Reading<int>>)
    ensures r.Some? ==> |r.value.rest| < |t|
  {
    var k := DigitRun(t);
    if k == 0 || (k > 1 && t[0] == 48) then None else Some(Reading(Value(t[..k]), t[k..]))
  }

  /** Integers of section 6. */
  function ReadNumber(t: Text): (r: Option<Reading<int>>)
    ensures r.Some? ==> |r.value.rest| < |t|
  {
    if t != [] && t[0] == 45 then
      var n := ReadDigits(t[1..]);
      if n.None? then None else Some(Reading(-n.value.value, n.value.rest))
    else ReadDigits(t)
  }

  function HexValue(c: CodeUnit): (r: Option<int>)
    ensures r.Some? ==> 0 <= r.value < 16
  {
    if 48 <= c <= 57 then Some(c - 48)
    else if 97 <= c <= 102 then Some(c - 97 + 10)
    else if 65 <= c <= 70 then Some(c - 65 + 10)
    else None
  }

  function ReadHex(a: CodeUnit, b: CodeUnit, c: CodeUnit, d: CodeUnit): Option<CodeUnit> {
    var (w, x, y, z) := (HexValue(a), HexValue(b), HexValue(c), HexValue(d));
    if w.None? || x.None? || y.None? || z.None? then None
    else Some(0x1000 * w.value + 0x100 * x.value + 0x10 * y.value + z.value)
  }

  /** One character of section 7 in front of a text: a unit of its own, or an escape. */
  function ReadChar(t: Text): (r: Option<Reading<CodeUnit>>)
    requires t != []
    ensures r.Some? ==> |r.value.rest| < |t|
  {
    if t[0] < 32 || t[0] == 34 then None
    else if t[0] != 92 then Some(Reading(t[0], t[1..]))
    else if |t| < 2 then None
    else if t[1] == 117 then
      if |t| < 6 then None
      else
        var unit := ReadHex(t[2], t[3], t[4], t[5]);
        if unit.None? then None else Some(Reading(unit.value, t[6..]))
    else
      match t[1]
      case 34 => Some(Reading(34, t[2..]))
      case 92 => Some(Reading(92, t[2..]))
      case 47 => Some(Reading(47, t[2..]))
      case 98 => Some(Reading(8, t[2..]))
      case 102 => Some(Reading(12, t[2..]))
      case 110 => Some(Reading(10, t[2..]))
      case 114 => Some(Reading(13, t[2..]))
      case 116 => Some(Reading(9, t[2..]))
      case _ => None
  }

  /** The rest of a string, up to its closing quotation mark. */
  function ReadChars(t: Text): (r: Option<Reading<Text>>)
    ensures r.Some? ==> |r.value.rest| < |t|
    decreases |t|
  {
    if t == [] then None
    else if t[0] == 34 then Some(Reading([], t[1..]))
    else
      var c := ReadChar(t);
      if c.None? then None
      else
        var s := ReadChars(c.value.rest);
        if s.None? then None else Some(Reading([c.value.value] + s.value.value, s.value.rest))
  }

  function ReadString(t: Text): (r: Option<Reading<Text>>)
    ensures r.Some? ==> |r.value.rest| < |t|
  {
    if t != [] && t[0] == 34 then ReadChars(t[1..]) else None
  }

  /** A value of section 3. */
  function ReadValue(t: Text): (r: Option<Reading<Json>>)
    ensures r.Some? ==> |r.value.rest| < |t|
    decreases |t|, 0
  {
    if t == [] then None
    else if t[0] == 123 then
      var s := t[1..];
      if s != [] && s[0] == 125 then Some(Reading(Obj([]), s[1..]))
      else
        var ms := ReadMembers(s);
        if ms.None? then None else Some(Reading(Obj(ms.value.value), ms.value.rest))
    else if t[0] == 91 then
      var s := t[1..];
      if s != [] && s[0] == 93 then Some(Reading(Arr([]), s[1..]))
      else
        var es := ReadElements(s);
        if es.None? then None else Some(Reading(Arr(es.value.value), es.value.rest))
    else if t[0] == 34 then
      var s := ReadString(t);
      if s.None? then None else Some(Reading(Str(s.value.value), s.value.rest))
    else if |t| >= 4 && t[..4] == [110, 117, 108, 108] then Some(Reading(Null, t[4..]))
    else if |t| >= 4 && t[..4] == [116, 114, 117, 101] then Some(Reading(Bool(true), t[4..]))
    else if |t| >= 5 && t[..5] == [102, 97, 108, 115, 101] then Some(Reading(Bool(false), t[5..]))
    else
      var n := ReadNumber(t);
      if n.None? then None else Some(Reading(Num(n.value.value), n.value.rest))
  }

  /** The elements of an array of section 5, up to its closing bracket. */
  function ReadElements(t: Text): (r: Option<Reading<seq<Json>>>)
    ensures r.Some? ==> |r.value.rest| < |t|
    decreases |t|, 1
  {
    var v := ReadValue(t);
    if v.None? then None
    else
      var s := v.value.rest;
      if s == [] then None
      else if s[0] == 93 then Some(Reading([v.value.value], s[1..]))
      else if s[0] != 44 then None
      else
        var es := ReadElements(s[1..]);
        if es.None? then None else Some(Reading([v.value.value] + es.value.value, es.value.rest))
  }

  /** The members of an object of section 4, up to its closing brace. */
  function ReadMembers(t: Text): (r: Option<Reading<seq<Member>>>)
    ensures r.Some? ==> |r.value.rest| < |t|
    decreases |t|, 1
  {
    var m := ReadMember(t);
    if m.None? then None
    else
      var s := m.value.rest;
      if s == [] then None
      else if s[0] == 125 then Some(Reading([m.value.value], s[1..]))
      else if s[0] != 44 then None
      else
        var ms := ReadMembers(s[1..]);
        if ms.None? then None else Some(Reading([m.value.value] + ms.value.value, ms.value.rest))
  }

  function ReadMember(t: Text): (r: Option<Reading<Member>>)
    ensures r.Some? ==> |r.value.rest| < |t|
    decreases |t|, 0
  {
    var key := ReadString(t);
    if key.None? then None
    else
      var s := key.value.rest;
      if s == [] || s[0] != 58 then None
      else
        var v := ReadValue(s[1..]);
        if v.None? then None else Some(Reading(Member(key.value.value, v.value.value), v.value.rest))
  }

  // ---------------------------------------------------------------------------
  // Numbers and strings read back
  // ---------------------------------------------------------------------------

  lemma {:induction false} DigitRunAll(x: Text, r: Text)
    requires (forall i :: 0 <= i < |x| ==> IsDigit(x[i])) && (r == [] || !IsDigit(r[0]))
    ensures DigitRun(x + r) == |x|
  {
    if x == [] {
      assert x + r == r;
    } else {
      DigitRunAll(x[1..], r);
      assert (x + r)[1..] == x[1..] + r;
    }
  }

  lemma {:induction false} NoLeadingZero(n: nat)
    ensures Digits(n)[0] == 48 ==> n == 0
    ensures n < 10 ==> |Digits(n)| == 1
  {
    if n >= 10 {
      NoLeadingZero(n / 10);
      assert Digits(n)[0] == Digits(n / 10)[0];
    }
  }

  lemma DigitsBack(n: nat, r: Text)
    requires r == [] || !IsDigit(r[0])
    ensures ReadDigits(Digits(n) + r) == Some(Reading(n, r))
  {
    var x := Digits(n) + r;
    DigitRunAll(Digits(n), r);
    assert x[..|Digits(n)|] == Digits(n) && x[|Digits(n)|..] == r && x[0] == Digits(n)[0];
    ValueOfDigits(n);
    NoLeadingZero(n);
  }

  lemma NumberBack(n: int, r: Text)
    requires r == [] || !IsDigit(r[0])
    ensures ReadNumber(Number(n) + r) == Some(Reading(n, r))
  {
    NumberSign(n);
    assert (Number(n) + r)[0] == Number(n)[0];
    if n < 0 {
      NumberTail(n, r);
      DigitsBack(-n, r);
    } else {
      DigitsBack(n, r);
    }
  }

  lemma HexBack(d: nat)
    requires d < 16
    ensures HexValue(HexDigit(d)) == Some(d)
  {
  }

  lemma EscapeBack(c: CodeUnit)
    ensures var t := UnicodeEscape(c); ReadHex(t[2], t[3], t[4], t[5]) == Some(c)
  {
    HexBack(c / 0x1000);
    HexBack(c / 0x100 % 16);
    HexBack(c / 16 % 16);
    HexBack(c % 16);
    HexDigits(c);
  }

  /** A piece that is no surrogate pair is one character of the grammar. */
  lemma CharBack(s: Text, r: Text)
    requires s != [] && !StartsPair(s)
    ensures (Head(s) + r)[0] != 34 && ReadChar(Head(s) + r) == Some(Reading(s[0], r))
  {
    var x, c := Head(s) + r, s[0];
    if |Head(s)| == 6 {
      EscapeBack(c);
      assert x[..6] == UnicodeEscape(c) && x[6..] == r;
      assert x[2] == x[..6][2] && x[3] == x[..6][3] && x[4] == x[..6][4] && x[5] == x[..6][5];
    } else if |Head(s)| == 2 {
      assert x[2..] == r;
    } else {
      assert x[1..] == r;
    }
  }

  /** One character and what ReadChars makes of the rest. */
  lemma CharStep(x: Text, c: CodeUnit, q: Text, s: Text, r: Text)
    requires x != [] && x[0] != 34 && ReadChar(x) == Some(Reading(c, q)) && ReadChars(q) == Some(Reading(s, r))
    ensures ReadChars(x) == Some(Reading([c] + s, r))
  {
  }

  lemma PairBack(h: CodeUnit, l: CodeUnit, q: Text, s: Text, r: Text)
    requires h > 92 && l > 92 && ReadChars(q) == Some(Reading(s, r))
    ensures ReadChars([h, l] + q) == Some(Reading([h, l] + s, r))
  {
    var x := [h, l] + q;
    assert x[1..] == [l] + q && x[1..][1..] == q;
    CharStep(x[1..], l, q, s, r);
    CharStep(x, h, x[1..], [l] + s, r);
    assert [h] + ([l] + s) == [h, l] + s;
  }

  lemma {:induction false} CharsBack(s: Text, r: Text)
    ensures ReadChars(Escape(s) + [34] + r) == Some(Reading(s, r))
    decreases |s|
  {
    if s == [] {
      assert Escape(s) + [34] + r == [34] + r;
    } else {
      var rest := s[HeadLength(s)..];
      var after := Escape(rest) + [34] + r;
      EscapeStep(s, r);
      CharsBack(rest, r);
      if StartsPair(s) {
        assert Head(s) == [s[0], s[1]] == s[..2];
        PairBack(s[0], s[1], after, rest, r);
      } else {
        CharBack(s, after);
        CharStep(Head(s) + after, s[0], after, rest, r);
        assert s[..1] == [s[0]];
      }
    }
  }

  /** Which units are escaped, in two units or in six with small letters. */
  lemma Pieces(s: Text)
    requires s != []
    ensures |Head(s)| == 2 <==> StartsPair(s) || s[0] in {8, 9, 10, 12, 13, 34, 92}
    ensures |Head(s)| == 6 <==> !StartsPair(s) &&
                                (0xD800 <= s[0] < 0xE000 || (s[0] < 32 && s[0] !in {8, 9, 10, 12, 13}))
    ensures |Head(s)| == 1 <==> Head(s) == [s[0]]
    ensures |Head(s)| == 6 ==> forall i :: 2 <= i < 6 ==> 48 <= Head(s)[i] < 58 || 97 <= Head(s)[i] < 103
  {
  }

  lemma StringBack(s: Text, r: Text)
    ensures ReadString(Quote(s) + r) == Some(Reading(s, r))
  {
    CharsBack(s, r);
    assert (Quote(s) + r)[1..] == Escape(s) + [34] + r;
  }

  // ---------------------------------------------------------------------------
  // Values read back
  // ---------------------------------------------------------------------------

  /** A JSON value: nothing in it is undefined, and the keys of every object are distinct. */
  ghost predicate Plain(v: Json) {
    match v
    case Undefined => false
    case Arr(es) => forall i :: 0 <= i < |es| ==> Plain(es[i])
    case Obj(ms) =>
      && (forall i, j :: 0 <= i < j < |ms| ==> ms[i].key != ms[j].key)
      && forall i :: 0 <= i < |ms| ==> Plain(ms[i].value)
    case _ => true
  }

  lemma {:induction false} PlainIsProper(v: Json)
    requires Plain(v)
    ensures Proper(v)
  {
    match v
    case Arr(es) =>
      assert |es| == 1 ==> es == [es[0]] && es[0] != Undefined;
      forall i | 0 <= i < |es| ensures Proper(es[i]) {
        PlainIsProper(es[i]);
      }
    case Obj(ms) =>
      forall i | 0 <= i < |ms| ensures Proper(ms[i].value) {
        PlainIsProper(ms[i].value);
      }
    case _ =>
  }

  /** a and b first differ at k, where a ends or has the smaller unit. */
  ghost predicate SmallerAt(a: Text, b: Text, k: nat) {
    && k <= |a| && k <= |b| && a[..k] == b[..k]
    && ((k == |a| && k < |b|) || (k < |a| && k < |b| && a[k] < b[k]))
  }

  ghost predicate Smaller(a: Text, b: Text) {
    exists k :: SmallerAt(a, b, k)
  }

  lemma SharedStart(a: Text, b: Text, k: nat)
    requires SmallerAt(a, b, k)
    ensures k > 0 ==> a != [] && b != [] && a[0] == b[0]
  {
    assert k > 0 ==> a[..k][0] == b[..k][0];
  }

  /** The order of the sort is the lexicographic order of the code units. */
  lemma {:induction false} LessIff(a: Text, b: Text)
    ensures Less(a, b) <==> Smaller(a, b)
  {
    if a == [] || b == [] || a[0] != b[0] {
      if Less(a, b) {
        assert SmallerAt(a, b, 0);
      }
      if k: nat :| SmallerAt(a, b, k) {
        SharedStart(a, b, k);
      }
    } else {
      LessIff(a[1..], b[1..]);
      if k: nat :| SmallerAt(a, b, k) {
        assert a[1..][..k - 1] == a[..k][1..] && b[1..][..k - 1] == b[..k][1..];
        assert SmallerAt(a[1..], b[1..], k - 1);
      }
      if j: nat :| SmallerAt(a[1..], b[1..], j) {
        assert a[..j + 1] == [a[0]] + a[1..][..j] && b[..j + 1] == [b[0]] + b[1..][..j];
        assert SmallerAt(a, b, j + 1);
      }
    }
  }

  /** The members of every object come in rising order. */
  ghost predicate Rising(v: Json) {
    match v
    case Arr(es) => forall i :: 0 <= i < |es| ==> Rising(es[i])
    case Obj(ms) =>
      && (forall i, j :: 0 <= i < j < |ms| ==> Smaller(ms[i].key, ms[j].key))
      && forall i :: 0 <= i < |ms| ==> Rising(ms[i].value)
    case _ => true
  }

  /** The reader gets the value back from the front of any text, up to the order of members, which is rising. */
  lemma {:induction false} ReadBack(v: Json, r: Text) returns (w: Json)
    requires Plain(v) && Delimited(r)
    ensures ReadValue(Stringify(v) + r) == Some(Reading(w, r))
    ensures SameButRising(v, w)
    decreases v, 2, 0
  {
    FirstUnit(v);
    w := v;
    match v {
      case Num(n) =>
        NumberBack(n, r);
        NumberIsNoWord(n, r);
      case Str(s) => StringBack(s, r);
      case Arr(_) => w := ArrayBack(v, r);
      case Obj(_) => w := ObjectBack(v, r);
      case _ => WordBack(v, r);
    }
  }

  lemma WordBack(v: Json, r: Text)
    requires v.Null? || v.Bool?
    ensures ReadValue(Stringify(v) + r) == Some(Reading(v, r))
  {
    var x := Stringify(v) + r;
    assert x[..|Stringify(v)|] == Stringify(v) && x[|Stringify(v)|..] == r;
    assert x[0] == Stringify(v)[0];
    assert v == Bool(true) ==> x[..4][0] == 116;
    assert v == Bool(false) ==> |x| >= 5 && x[..4][0] == 102;
  }

  lemma NumberIsNoWord(n: int, r: Text)
    ensures var x := Number(n) + r;
            && x[0] < 58 && x[0] != 34
            && (|x| >= 4 ==> x[..4] != [110, 117, 108, 108] && x[..4] != [116, 114, 117, 101])
            && (|x| >= 5 ==> x[..5] != [102, 97, 108, 115, 101])
  {
    var x := Number(n) + r;
    assert x[0] == Number(n)[0];
    assert |x| >= 4 ==> x[..4][0] == x[0];
    assert |x| >= 5 ==> x[..5][0] == x[0];
  }

  lemma ArrayText(v: Json, r: Text)
    requires v.Arr?
    ensures (Stringify(v) + r)[0] == 91
    ensures (Stringify(v) + r)[1..] == Join(ElementTexts(v)) + ([93] + r)
  {
    assert Stringify(v) + r == [91] + (Join(ElementTexts(v)) + ([93] + r));
  }

  lemma ArrayBack(v: Json, r: Text) returns (w: Json)
    requires v.Arr? && Plain(v) && Delimited(r)
    ensures ReadValue(Stringify(v) + r) == Some(Reading(w, r))
    ensures SameButRising(v, w)
    decreases v, 1, 0
  {
    var parts := ElementTexts(v);
    ArrayText(v, r);
    var x := Join(parts) + ([93] + r);
    if v.elems == [] {
      JoinNothing(parts, 93, r);
      assert x[1..] == r;
      w := Arr([]);
    } else {
      assert parts[0..] == parts;
      var es := ElementsBack(v, 0, r);
      ElementFirst(v, 0, r);
      w := Arr(es);
    }
  }

  /** What comes before an element is not the closing bracket. */
  lemma ElementFirst(v: Json, k: nat, r: Text)
    requires v.Arr? && Plain(v) && k < |v.elems|
    ensures var x := Join(ElementTexts(v)[k..]) + ([93] + r); x != [] && x[0] != 93
  {
    JoinFrom(ElementTexts(v), k, 93, r);
    FirstUnit(v.elems[k]);
    var q := After(ElementTexts(v), k, 93, r);
    assert (Stringify(v.elems[k]) + q)[0] == Stringify(v.elems[k])[0];
  }

  /** The elements read from place k on are those of the array, each up to member order. */
  ghost predicate ElementsFrom(elems: seq<Json>, k: nat, es: seq<Json>) {
    k + |es| == |elems| && forall i :: 0 <= i < |es| ==> SameButRising(elems[k + i], es[i])
  }

  ghost predicate SameButRising(v: Json, w: Json) {
    Equivalent(v, w) && Rising(w)
  }

  lemma ElementsFromStep(elems: seq<Json>, k: nat, e: Json, more: seq<Json>)
    requires k < |elems| && SameButRising(elems[k], e) && ElementsFrom(elems, k + 1, more)
    ensures ElementsFrom(elems, k, [e] + more)
  {
    var es := [e] + more;
    forall i | 0 <= i < |es| ensures SameButRising(elems[k + i], es[i]) {
      if i > 0 {
        assert SameButRising(elems[k + 1 + (i - 1)], more[i - 1]);
      }
    }
  }

  lemma LastAfter(parts: seq<Text>, close: CodeUnit, r: Text)
    requires parts != []
    ensures After(parts, |parts| - 1, close, r)[1..] == r
  {
  }

  lemma NextAfter(parts: seq<Text>, k: nat, close: CodeUnit, r: Text)
    requires k < |parts| - 1
    ensures After(parts, k, close, r)[1..] == Join(parts[k + 1..]) + ([close] + r)
  {
  }

  /** One element and what ReadElements makes of the rest. */
  lemma ElementStep(x: Text, e: Json, q: Text, r: Text)
    requires ReadValue(x) == Some(Reading(e, q)) && q != [] && q[0] == 93 && q[1..] == r
    ensures ReadElements(x) == Some(Reading([e], r))
  {
  }

  lemma ElementsStep(x: Text, e: Json, q: Text, more: seq<Json>, r: Text)
    requires ReadValue(x) == Some(Reading(e, q)) && q != [] && q[0] == 44
    requires ReadElements(q[1..]) == Some(Reading(more, r))
    ensures ReadElements(x) == Some(Reading([e] + more, r))
  {
  }

  lemma ElementsBack(v: Json, k: nat, r: Text) returns (es: seq<Json>)
    requires v.Arr? && Plain(v) && k < |v.elems|
    ensures ReadElements(Join(ElementTexts(v)[k..]) + ([93] + r)) == Some(Reading(es, r))
    ensures ElementsFrom(v.elems, k, es)
    decreases v, 0, |v.elems| - k
  {
    var parts := ElementTexts(v);
    var q := After(parts, k, 93, r);
    var e := ElementBack(v, k, r);
    if k == |v.elems| - 1 {
      LastAfter(parts, 93, r);
      ElementStep(Join(parts[k..]) + ([93] + r), e, q, r);
      es := [e];
    } else {
      NextAfter(parts, k, 93, r);
      ElementFirst(v, k + 1, r);
      var more := ElementsBack(v, k + 1, r);
      ElementsStep(Join(parts[k..]) + ([93] + r), e, q, more, r);
      ElementsFromStep(v.elems, k, e, more);
      es := [e] + more;
    }
  }

  lemma ElementBack(v: Json, k: nat, r: Text) returns (e: Json)
    requires v.Arr? && Plain(v) && k < |v.elems|
    ensures ReadValue(Join(ElementTexts(v)[k..]) + ([93] + r)) == Some(Reading(e, After(ElementTexts(v), k, 93, r)))
    ensures SameButRising(v.elems[k], e)
    decreases v, 0, 0
  {
    JoinFrom(ElementTexts(v), k, 93, r);
    e := ReadBack(v.elems[k], After(ElementTexts(v), k, 93, r));
  }

  lemma ObjectText(v: Json, r: Text)
    requires v.Obj?
    ensures (Stringify(v) + r)[0] == 123
    ensures (Stringify(v) + r)[1..] == Join(EntryTexts(SortEntries(Entries(v)))) + ([125] + r)
  {
    assert Stringify(v) + r == [123] + (Join(EntryTexts(SortEntries(Entries(v)))) + ([125] + r));
  }

  /** The members read from place k on are those behind the sorted entries. */
  ghost predicate ReadFrom(v: Json, s: seq<Entry>, k: nat, ms: seq<Member>)
    requires v.Obj?
  {
    k + |ms| == |s| && forall i :: 0 <= i < |ms| ==> ReadAs(v, s[k + i], ms[i])
  }

  ghost predicate ReadAs(v: Json, e: Entry, m: Member)
    requires v.Obj?
  {
    m.key == e.key && Rising(m.value) && HasOrigin(v.members, m)
  }

  lemma ReadFromStep(v: Json, s: seq<Entry>, k: nat, m: Member, more: seq<Member>)
    requires v.Obj? && k < |s| && ReadAs(v, s[k], m) && ReadFrom(v, s, k + 1, more)
    ensures ReadFrom(v, s, k, [m] + more)
  {
    var ms := [m] + more;
    forall i | 0 <= i < |ms| ensures ReadAs(v, s[k + i], ms[i]) {
      if i > 0 {
        assert ReadAs(v, s[k + 1 + (i - 1)], more[i - 1]);
      }
    }
  }

  lemma ObjectBack(v: Json, r: Text) returns (w: Json)
    requires v.Obj? && Plain(v) && Delimited(r)
    ensures ReadValue(Stringify(v) + r) == Some(Reading(w, r))
    ensures SameButRising(v, w)
    decreases v, 1, 0
  {
    PlainIsProper(v);
    EntriesSorted(v);
    var s := SortEntries(Entries(v));
    ObjectText(v, r);
    var x := Join(EntryTexts(s)) + ([125] + r);
    if v.members == [] {
      JoinNothing(EntryTexts(s), 125, r);
      assert x[1..] == r;
      w := Obj([]);
    } else {
      assert EntryTexts(s)[0..] == EntryTexts(s);
      var ms := MembersBack(v, s, 0, r);
      EntryFirst(s, 0, r);
      w := Obj(ms);
      SortedMembers(v, s, ms);
    }
  }

  lemma EntryFirst(s: seq<Entry>, k: nat, r: Text)
    requires k < |s|
    ensures (Join(EntryTexts(s)[k..]) + ([125] + r))[0] == 34
  {
    JoinFrom(EntryTexts(s), k, 125, r);
    assert (EntryText(s[k]) + After(EntryTexts(s), k, 125, r))[0] == 34;
  }

  lemma SortedMembers(v: Json, s: seq<Entry>, ms: seq<Member>)
    requires v.Obj? && Plain(v) && Proper(v) && s == SortEntries(Entries(v)) && ReadFrom(v, s, 0, ms)
    ensures Equivalent(v, Obj(ms)) && Rising(Obj(ms))
  {
    EntriesSorted(v);
    forall k | 0 <= k < |ms| ensures ms[k].key == s[k].key && Rising(ms[k].value) && HasOrigin(v.members, ms[k]) {
      assert ReadAs(v, s[0 + k], ms[k]);
    }
    forall i, j | 0 <= i < j < |ms| ensures Smaller(ms[i].key, ms[j].key) {
      LessIff(s[i].key, s[j].key);
    }
    forall i | 0 <= i < |v.members| ensures HasPartner(v.members[i], ms) {
      var k := PlaceOf(v, i);
      assert ms[k].key == v.members[i].key && HasOrigin(v.members, ms[k]);
      var i' :| 0 <= i' < |v.members| && SameMember(v.members[i'], ms[k]);
      assert i' == i;
    }
  }

  lemma EntryBack(v: Json, s: seq<Entry>, k: nat, q: Text) returns (m: Member)
    requires v.Obj? && Plain(v) && Proper(v) && s == SortEntries(Entries(v)) && k < |s| && Delimited(q)
    ensures ReadMember(EntryText(s[k]) + q) == Some(Reading(m, q))
    ensures ReadAs(v, s[k], m)
    decreases v, 0, 0
  {
    var i := MemberOf(v, k);
    var value := v.members[i].value;
    var w := ReadBack(value, q);
    m := Member(s[k].key, w);
    assert SameMember(v.members[i], m);
    var tail := [58] + (s[k].text + q);
    Reassociate(Quote(s[k].key), 58, s[k].text, q);
    StringBack(s[k].key, tail);
    assert tail[1..] == s[k].text + q;
  }

  lemma MemberStep(x: Text, m: Member, q: Text, r: Text)
    requires ReadMember(x) == Some(Reading(m, q)) && q != [] && q[0] == 125 && q[1..] == r
    ensures ReadMembers(x) == Some(Reading([m], r))
  {
  }

  lemma MembersStep(x: Text, m: Member, q: Text, more: seq<Member>, r: Text)
    requires ReadMember(x) == Some(Reading(m, q)) && q != [] && q[0] == 44
    requires ReadMembers(q[1..]) == Some(Reading(more, r))
    ensures ReadMembers(x) == Some(Reading([m] + more, r))
  {
  }

  lemma MembersBack(v: Json, s: seq<Entry>, k: nat, r: Text) returns (ms: seq<Member>)
    requires v.Obj? && Plain(v) && Proper(v) && s == SortEntries(Entries(v)) && k < |s|
    ensures ReadMembers(Join(EntryTexts(s)[k..]) + ([125] + r)) == Some(Reading(ms, r))
    ensures ReadFrom(v, s, k, ms)
    decreases v, 0, |s| - k
  {
    var parts := EntryTexts(s);
    JoinFrom(parts, k, 125, r);
    var q := After(parts, k, 125, r);
    var m := EntryBack(v, s, k, q);
    if k == |s| - 1 {
      LastAfter(parts, 125, r);
      MemberStep(Join(parts[k..]) + ([125] + r), m, q, r);
      ms := [m];
    } else {
      NextAfter(parts, k, 125, r);
      EntryFirst(s, k + 1, r);
      var more := MembersBack(v, s, k + 1, r);
      MembersStep(Join(parts[k..]) + ([125] + r), m, q, more, r);
      ReadFromStep(v, s, k, m, more);
      ms := [m] + more;
    }
  }
}
