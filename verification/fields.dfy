/**
  Bit fields of a register word and the masked read-modify-write update.

  Every configuration routine of the driver reads a register word, clears
  one field with `w & ~FIELD(all ones)`, ORs in `FIELD(x)` and writes the
  word back. This module states that discipline once, for an arbitrary
  field, and proves what it guarantees: the field afterwards holds `x`
  reduced to the field width, and every bit outside the field, hence every
  field disjoint from it, is unchanged.
 */
module Fields {
  import opened Bits

  /** `width` bits of a word, starting at bit `shift`. */
  datatype Field = Field(shift: nat, width: nat) {

    /** Weight of the field's lowest bit, 2^shift. */
    function Unit(): nat { Pow2(shift) }

    /** Number of values the field can hold, 2^width. */
    function Span(): nat { Pow2(width) }

    /** First bit position above the field. */
    function Top(): nat { shift + width }

    /** The field's contents, `(w >> shift) & (2^width - 1)`. */
    function Get(w: nat): nat { (w / Unit()) % Span() }

    /** The register-map macro form, `(x & (2^width - 1)) << shift`. */
    function Place(x: nat): nat { (x % Span()) * Unit() }

    /** The bits of `w` below the field. */
    function Below(w: nat): nat { w % Unit() }

    /** The bits of `w` above the field, shifted down to bit 0. */
    function Above(w: nat): nat
    {
      DivIsNat(w, Pow2(Top()));
      w / Pow2(Top())
    }

    /** `w & ~Place(2^width - 1)`: the word with the field's bits cleared. */
    function Clear(w: nat): nat
    {
      MulNonNegative(Above(w), Pow2(Top()));
      Above(w) * Pow2(Top()) + Below(w)
    }

    /** `(w & ~Place(2^width - 1)) | Place(x)`: the masked-OR update. */
    function Update(w: nat, x: nat): nat { BitOr(Clear(w), Place(x)) }
  }

  /** The two fields occupy no common bit position. */
  predicate Disjoint(f: Field, g: Field)
  {
    f.Top() <= g.shift || g.Top() <= f.shift
  }

  /** No two fields of a register layout overlap. */
  predicate PairwiseDisjoint(layout: seq<Field>)
  {
    forall i, j :: 0 <= i < j < |layout| ==> Disjoint(layout[i], layout[j])
  }

  /** Every word splits into the bits above, in and below a field. */
  lemma Decompose(f: Field, w: nat)
    ensures f.Below(w) < f.Unit() && f.Get(w) < f.Span()
    ensures Pow2(f.Top()) == f.Unit() * f.Span()
    ensures w == f.Above(w) * Pow2(f.Top()) + f.Get(w) * f.Unit() + f.Below(w)
  {
    Pow2Add(f.shift, f.width);
    SplitDigits(w, f.Unit(), f.Span());
  }

  /** The split is unique: any digits above, in and below the field that make up `w` are its own. */
  lemma DecomposeUnique(f: Field, w: nat, a: nat, c: nat, b: nat)
    requires w == a * Pow2(f.Top()) + c * f.Unit() + b && c < f.Span() && b < f.Unit()
    ensures a == f.Above(w) && c == f.Get(w) && b == f.Below(w)
  {
    var u, sp, top := f.Unit(), f.Span(), Pow2(f.Top());
    assert top == u * sp by {
      Pow2Add(f.shift, f.width);
    }
    assert w == a * (u * sp) + c * u + b;
    JoinDigits(a, c, b, u, sp);
  }

  /**
    The masked-OR update: OR-ing into the cleared word is addition, the field
    afterwards holds `x mod 2^width`, and the bits below and above the field
    are those of the old word.
   */
  lemma UpdateTheorem(f: Field, w: nat, x: nat)
    ensures f.Update(w, x) == f.Clear(w) + f.Place(x)
    ensures f.Get(f.Update(w, x)) == x % f.Span()
    ensures f.Below(f.Update(w, x)) == f.Below(w)
    ensures f.Above(f.Update(w, x)) == f.Above(w)
  {
    var u, s := f.Unit(), f.Span();
    var a, b, c := f.Above(w), f.Below(w), x % s;
    Decompose(f, w);
    // The cleared word has an empty field, so OR-ing the placed value adds it.
    JoinDigits(a, 0, b, u, s);
    assert f.Clear(w) / u == a * s;
    JoinDigits(a, 0, 0, 1, s);
    LowAndHighDisjoint(a * s, c, f.width);
    ShiftedDisjoint(f.Clear(w), a * s, c, f.shift);
    OrOfDisjointIsSum(f.Clear(w), f.Place(x));
    JoinDigits(a, c, b, u, s);
  }

  /**
    Every field that avoids all of `changed` reads the same in `after` as in
    `before`: the two words differ at most in the bits of `changed`.
   */
  ghost predicate Untouched(changed: seq<Field>, before: nat, after: nat)
  {
    forall g: Field :: (forall i :: 0 <= i < |changed| ==> Disjoint(changed[i], g)) ==> g.Get(after) == g.Get(before)
  }

  /** Differences confined to `changed` compose. */
  lemma UntouchedTrans(changed: seq<Field>, a: nat, b: nat, c: nat)
    requires Untouched(changed, a, b) && Untouched(changed, b, c)
    ensures Untouched(changed, a, c)
  {}

  /** A difference confined to one field is confined to any list containing it. */
  lemma UntouchedWiden(f: Field, changed: seq<Field>, a: nat, b: nat)
    requires f in changed && Untouched([f], a, b)
    ensures Untouched(changed, a, b)
  {
    var i :| 0 <= i < |changed| && changed[i] == f;
    forall g: Field | (forall j :: 0 <= j < |changed| ==> Disjoint(changed[j], g))
      ensures g.Get(b) == g.Get(a)
    {
      assert Disjoint(changed[i], g);
      assert forall j :: 0 <= j < 1 ==> Disjoint([f][j], g);
    }
  }

  /** A difference confined to some fields is confined to any longer list. */
  lemma UntouchedExtend(changed: seq<Field>, more: seq<Field>, a: nat, b: nat)
    requires Untouched(changed, a, b)
    ensures Untouched(changed + more, a, b)
  {
    forall g: Field | (forall j :: 0 <= j < |changed + more| ==> Disjoint((changed + more)[j], g))
      ensures g.Get(b) == g.Get(a)
    {
      forall j | 0 <= j < |changed|
        ensures Disjoint(changed[j], g)
      {
        assert (changed + more)[j] == changed[j];
      }
    }
  }

  /** A difference confined to the fields of `small` is confined to any list that contains them all. */
  lemma UntouchedSubset(small: seq<Field>, big: seq<Field>, a: nat, b: nat)
    requires forall i :: 0 <= i < |small| ==> small[i] in big
    requires Untouched(small, a, b)
    ensures Untouched(big, a, b)
  {
    forall g: Field | (forall j :: 0 <= j < |big| ==> Disjoint(big[j], g))
      ensures g.Get(b) == g.Get(a)
    {
      forall i | 0 <= i < |small|
        ensures Disjoint(small[i], g)
      {
        var j :| 0 <= j < |big| && big[j] == small[i];
      }
    }
  }

  /**
    Building a word up from zero: OR-ing a placed value into a word whose
    set bits all lie in fields disjoint from `f` is the update of `f`; it
    keeps the earlier fields and still sets no bit outside the fields used.
   */
  lemma OrIntoFreshField(changed: seq<Field>, f: Field, w: nat, x: nat)
    requires Untouched(changed, 0, w)
    requires forall i :: 0 <= i < |changed| ==> Disjoint(changed[i], f)
    ensures BitOr(w, f.Place(x)) == f.Update(w, x) == w + f.Place(x)
    ensures f.Get(f.Update(w, x)) == x % f.Span()
    ensures forall i :: 0 <= i < |changed| ==> changed[i].Get(f.Update(w, x)) == changed[i].Get(w)
    ensures Untouched(changed + [f], 0, f.Update(w, x))
  {
    var r := f.Update(w, x);
    assert f.Get(w) == f.Get(0);
    assert f.Get(0) == 0 by {
      DivModUnique(0, f.Unit(), 0, 0);
      DivModUnique(0, f.Span(), 0, 0);
    }
    OrIntoClearField(f, w, x);
    UpdateEmptyField(f, w, x);
    UpdateGet(f, w, x);
    forall i | 0 <= i < |changed|
      ensures changed[i].Get(r) == changed[i].Get(w)
    {
      DisjointFieldUnchanged(f, changed[i], w, x);
    }
    UntouchedExtend(changed, [f], 0, w);
    UpdateUntouched(f, w, x);
    UntouchedWiden(f, changed + [f], w, r);
    UntouchedTrans(changed + [f], 0, w, r);
  }

  /** Clearing a field is updating it with 0. */
  lemma ClearIsUpdate(f: Field, w: nat)
    ensures f.Clear(w) == f.Update(w, 0)
  {
    assert f.Place(0) == 0;
  }

  /** An update changes nothing outside its field. */
  lemma UpdateUntouched(f: Field, w: nat, x: nat)
    ensures Untouched([f], w, f.Update(w, x))
  {
    forall g: Field | (forall i :: 0 <= i < 1 ==> Disjoint([f][i], g))
      ensures g.Get(f.Update(w, x)) == g.Get(w)
    {
      assert Disjoint([f][0], g);
      DisjointFieldUnchanged(f, g, w, x);
    }
  }

  /** The field reads back what an update stored, reduced to its width. */
  lemma UpdateGet(f: Field, w: nat, x: nat)
    ensures f.Get(f.Update(w, x)) == x % f.Span()
  {
    UpdateTheorem(f, w, x);
  }

  /** Three updates of pairwise disjoint fields in a row leave each field holding its value. */
  lemma UpdateThree(u: Field, g: Field, h: Field, w: nat, x: nat, y: nat, z: nat)
    requires Disjoint(u, g) && Disjoint(u, h) && Disjoint(g, h)
    ensures var r := h.Update(g.Update(u.Update(w, x), y), z);
      && u.Get(r) == x % u.Span() && g.Get(r) == y % g.Span() && h.Get(r) == z % h.Span()
  {
    var r1 := u.Update(w, x);
    var r2 := g.Update(r1, y);
    UpdateGet(u, w, x);
    DisjointFieldUnchanged(g, u, r1, y);
    DisjointFieldUnchanged(h, u, r2, z);
    UpdateGet(g, r1, y);
    DisjointFieldUnchanged(h, g, r2, z);
    UpdateGet(h, r2, z);
  }

  /** A field lying wholly below `f` reads the same from `f.Below(w)` as from `w`. */
  lemma GetFromBelow(f: Field, g: Field, w: nat)
    requires g.Top() <= f.shift
    ensures g.Get(w) == g.Get(f.Below(w))
  {
    var gu, gs := g.Unit(), g.Span();
    var d := Pow2(f.shift - g.Top());
    Pow2Add(g.shift, g.width);
    Pow2Split(f.shift, g.Top());
    assert f.Unit() == (gu * gs) * d;
    ModMod(w, gu * gs, d);
    DivMod(w, gu, gs);
    DivMod(f.Below(w), gu, gs);
  }

  /** A field lying wholly above `f` reads the same from `f.Above(w)`, suitably shifted. */
  lemma GetFromAbove(f: Field, g: Field, w: nat)
    requires f.Top() <= g.shift
    ensures var d := Pow2(g.shift - f.Top()); g.Get(w) == (f.Above(w) / d) % g.Span()
  {
    var d := Pow2(g.shift - f.Top());
    Pow2Split(g.shift, f.Top());
    DivDiv(w, Pow2(f.Top()), d);
  }

  /** Updating `f` leaves every field disjoint from `f` unchanged. */
  lemma DisjointFieldUnchanged(f: Field, g: Field, w: nat, x: nat)
    requires Disjoint(f, g)
    ensures g.Get(f.Update(w, x)) == g.Get(w)
  {
    UpdateTheorem(f, w, x);
    var r := f.Update(w, x);
    if g.Top() <= f.shift {
      GetFromBelow(f, g, w);
      GetFromBelow(f, g, r);
    } else {
      GetFromAbove(f, g, w);
      GetFromAbove(f, g, r);
    }
  }

  /** `w | Place(x)` is the masked-OR update when the field of `w` is already clear. */
  lemma OrIntoClearField(f: Field, w: nat, x: nat)
    requires f.Get(w) == 0
    ensures BitOr(w, f.Place(x)) == f.Update(w, x)
  {
    Decompose(f, w);
    assert f.Clear(w) == w;
  }

  /** Updating an empty field adds the placed value. */
  lemma UpdateEmptyField(f: Field, w: nat, x: nat)
    requires f.Get(w) == 0
    ensures f.Update(w, x) == w + f.Place(x)
  {
    Decompose(f, w);
    assert f.Clear(w) == w;
    UpdateTheorem(f, w, x);
  }

  /** An update stays below 2^k when the word and the field do. */
  lemma UpdateBound(f: Field, w: nat, x: nat, k: nat)
    requires w < Pow2(k) && f.Top() <= k
    ensures f.Update(w, x) < Pow2(k)
  {
    var t, e := Pow2(f.Top()), Pow2(k - f.Top());
    Pow2Split(k, f.Top());
    Decompose(f, w);
    UpdateTheorem(f, w, x);
    var a, low := f.Above(w), f.Place(x) + f.Below(w);
    JoinDigits(0, x % f.Span(), f.Below(w), f.Unit(), f.Span());
    MulNonNegative(f.Get(w), f.Unit());
    SameBlockBound(a, t, e, low, w, Pow2(k));
  }
}
