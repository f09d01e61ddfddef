/**
 Which values stableStringify (core/crypto/routing.js) prints alike when arrays may hold a lone undefined, which
 prints like no element at all: the values that are equal up to member order once `[undefined]` is read as `[]`.
 */
module PrintedJson {
  import opened CanonicalJson

  /** The keys of every object are distinct, as they are in every JavaScript value. */
  ghost predicate WellKeyed(v: Json) {
    match v
    case Arr(es) => forall i :: 0 <= i < |es| ==> WellKeyed(es[i])
    case Obj(ms) =>
      && (forall i, j :: 0 <= i < j < |ms| ==> ms[i].key != ms[j].key)
      && forall i :: 0 <= i < |ms| ==> WellKeyed(ms[i].value)
    case _ => true
  }

  /** `[]` for `[undefined]`, at every depth. */
  function Norm(v: Json): Json {
    match v
    case Arr(es) =>
      if es == [Undefined] then Arr([]) else Arr(seq(|es|, i requires 0 <= i < |es| => Norm(es[i])))
    case Obj(ms) => Obj(seq(|ms|, i requires 0 <= i < |ms| => Member(ms[i].key, Norm(ms[i].value))))
    case _ => v
  }

  /** Equal up to member order at every depth, with `[undefined]` counted as `[]`. */
  ghost predicate Alike(v: Json, w: Json) {
    Equivalent(Norm(v), Norm(w))
  }

  lemma {:induction false} NormProper(v: Json)
    requires WellKeyed(v)
    ensures Proper(Norm(v))
  {
    match v
    case Arr(es) =>
      forall i | 0 <= i < |es| ensures Proper(Norm(es[i])) {
        NormProper(es[i]);
      }
      assert |es| == 1 ==> es == [es[0]];
    case Obj(ms) =>
      forall i | 0 <= i < |ms| ensures Proper(Norm(ms[i].value)) {
        NormProper(ms[i].value);
      }
    case _ =>
  }

  lemma {:induction false} NormPrints(v: Json)
    ensures Stringify(Norm(v)) == Stringify(v)
  {
    match v
    case Arr(es) =>
      if es == [Undefined] {
        LoneUndefinedCollides();
      } else {
        forall i | 0 <= i < |es| ensures ElementText(Norm(es[i])) == ElementText(es[i]) {
          NormPrints(es[i]);
        }
        assert ElementTexts(Norm(v)) == ElementTexts(v);
      }
    case Obj(ms) =>
      forall i | 0 <= i < |ms| ensures Stringify(Norm(ms[i].value)) == Stringify(ms[i].value) {
        NormPrints(ms[i].value);
      }
      assert Entries(Norm(v)) == Entries(v);
    case _ =>
  }

  /** Two values print the same text exactly when they are alike. */
  lemma PrintsAlikeIff(v: Json, w: Json)
    requires WellKeyed(v) && WellKeyed(w)
    ensures Stringify(v) == Stringify(w) <==> Alike(v, w)
  {
    NormProper(v);
    NormProper(w);
    NormPrints(v);
    NormPrints(w);
    Canonical(Norm(v), Norm(w));
  }

  lemma {:induction false} EquivalentAreAlike(v: Json, w: Json)
    requires Equivalent(v, w)
    ensures Alike(v, w)
    decreases v, 1
  {
    match v
    case Arr(es) =>
      assert |es| == 1 ==> es == [es[0]] && w.elems == [w.elems[0]];
      forall i | 0 <= i < |es| ensures Alike(es[i], w.elems[i]) {
        EquivalentAreAlike(es[i], w.elems[i]);
      }
    case Obj(_) => EquivalentObjectsAreAlike(v, w);
    case _ =>
  }

  lemma EquivalentObjectsAreAlike(v: Json, w: Json)
    requires v.Obj? && Equivalent(v, w)
    ensures Alike(v, w)
    decreases v, 0
  {
    var ms, ns := Norm(v).members, Norm(w).members;
    forall i | 0 <= i < |ms| ensures HasPartner(ms[i], ns) {
      assert HasPartner(v.members[i], w.members);
      var j :| 0 <= j < |w.members| && SameMember(v.members[i], w.members[j]);
      EquivalentAreAlike(v.members[i].value, w.members[j].value);
      assert SameMember(ms[i], ns[j]);
    }
    forall j | 0 <= j < |ns| ensures HasOrigin(ms, ns[j]) {
      assert HasOrigin(v.members, w.members[j]);
      var i :| 0 <= i < |v.members| && SameMember(v.members[i], w.members[j]);
      EquivalentAreAlike(v.members[i].value, w.members[j].value);
      assert SameMember(ms[i], ns[j]);
    }
  }

  // ---------------------------------------------------------------------------
  // When the text determines the value
  // ---------------------------------------------------------------------------

  /** No array prints as `[]`. */
  ghost predicate NoEmptyArray(v: Json) {
    match v
    case Arr(es) => es != [] && es != [Undefined] && forall i :: 0 <= i < |es| ==> NoEmptyArray(es[i])
    case Obj(ms) => forall i :: 0 <= i < |ms| ==> NoEmptyArray(ms[i].value)
    case _ => true
  }

  lemma {:induction false} AlikeIsExact(v: Json, w: Json)
    requires NoEmptyArray(v) && Alike(v, w)
    ensures Equivalent(v, w)
    decreases v
  {
    match v
    case Arr(es) =>
      forall i | 0 <= i < |es| ensures Equivalent(es[i], w.elems[i]) {
        assert Norm(v).elems[i] == Norm(es[i]) && Norm(w).elems[i] == Norm(w.elems[i]);
        AlikeIsExact(es[i], w.elems[i]);
      }
    case Obj(ms) =>
      forall i | 0 <= i < |ms| ensures HasPartner(ms[i], w.members) {
        assert HasPartner(Norm(v).members[i], Norm(w).members);
        var j :| 0 <= j < |w.members| && SameMember(Norm(v).members[i], Norm(w).members[j]);
        AlikeIsExact(ms[i].value, w.members[j].value);
        assert SameMember(ms[i], w.members[j]);
      }
      forall j | 0 <= j < |w.members| ensures HasOrigin(ms, w.members[j]) {
        assert HasOrigin(Norm(v).members, Norm(w).members[j]);
        var i :| 0 <= i < |ms| && SameMember(Norm(v).members[i], Norm(w).members[j]);
        AlikeIsExact(ms[i].value, w.members[j].value);
        assert SameMember(ms[i], w.members[j]);
      }
    case _ =>
  }

  /** `[]` and `[undefined]` exchanged at every depth. */
  function Swap(v: Json): Json {
    match v
    case Arr(es) =>
      if es == [] then Arr([Undefined])
      else if es == [Undefined] then Arr([])
      else Arr(seq(|es|, i requires 0 <= i < |es| => Swap(es[i])))
    case Obj(ms) => Obj(seq(|ms|, i requires 0 <= i < |ms| => Member(ms[i].key, Swap(ms[i].value))))
    case _ => v
  }

  lemma {:induction false} SwapIsAlike(v: Json)
    requires WellKeyed(v)
    ensures WellKeyed(Swap(v)) && Norm(Swap(v)) == Norm(v)
  {
    match v
    case Arr(es) =>
      forall i | 0 <= i < |es| ensures WellKeyed(Swap(es[i])) && Norm(Swap(es[i])) == Norm(es[i]) {
        SwapIsAlike(es[i]);
      }
      if es != [] && es != [Undefined] {
        assert |es| == 1 ==> es == [es[0]];
        assert Swap(v).elems != [Undefined];
        assert Norm(Swap(v)).elems == Norm(v).elems;
      }
    case Obj(ms) =>
      forall i | 0 <= i < |ms| ensures WellKeyed(Swap(ms[i].value)) && Norm(Swap(ms[i].value)) == Norm(ms[i].value) {
        SwapIsAlike(ms[i].value);
      }
      assert Norm(Swap(v)).members == Norm(v).members;
    case _ =>
  }

  lemma {:induction false} SwapDiffers(v: Json)
    requires WellKeyed(v) && Equivalent(v, Swap(v))
    ensures NoEmptyArray(v)
  {
    match v
    case Arr(es) =>
      forall i | 0 <= i < |es| ensures NoEmptyArray(es[i]) {
        SwapDiffers(es[i]);
      }
    case Obj(ms) =>
      forall i | 0 <= i < |ms| ensures NoEmptyArray(ms[i].value) {
        assert HasPartner(ms[i], Swap(v).members);
        var j :| 0 <= j < |ms| && SameMember(ms[i], Swap(v).members[j]);
        assert j == i;
        SwapDiffers(ms[i].value);
      }
    case _ =>
  }

  ghost predicate Determined(v: Json) {
    forall w :: WellKeyed(w) && Stringify(w) == Stringify(v) ==> Equivalent(v, w)
  }

  /** The text determines the value, up to member order, if and only if no array in it prints as `[]`. */
  lemma TextDeterminesIff(v: Json)
    requires WellKeyed(v)
    ensures Determined(v) <==> NoEmptyArray(v)
  {
    if NoEmptyArray(v) {
      forall w | WellKeyed(w) && Stringify(w) == Stringify(v) ensures Equivalent(v, w) {
        PrintsAlikeIff(v, w);
        AlikeIsExact(v, w);
      }
    }
    if Determined(v) {
      SwapIsAlike(v);
      NormPrints(v);
      NormPrints(Swap(v));
      SwapDiffers(v);
    }
  }
}
