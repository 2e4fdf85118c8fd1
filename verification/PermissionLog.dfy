// What local permissions mean: masks of bits by user and structure, and the grants and
// revocations that led to them.
module PermissionLog {
  import opened ScGraph

  type Mask = bv16

  const AUTHENTICATED: Mask := 0x1

  type Masks = map<Addr, Mask>
  type View = map<Addr, Masks>

  // `sc_hash_table_get`: an absent entry reads as 0.
  function MaskOf(masks: Masks, structure: Addr): Mask {
    if structure in masks then masks[structure] else 0
  }

  function MasksOf(view: View, user: Addr): Masks {
    if user in view then view[user] else map[]
  }

  function Permitted(view: View, user: Addr, structure: Addr): Mask {
    MaskOf(MasksOf(view, user), structure)
  }

  // `sc_context_has_permissions_subset`
  predicate HasSubset(mask: Mask, required: Mask) { mask & required == required }

  datatype Op = Grant(user: Addr, structure: Addr, mask: Mask) | Revoke(user: Addr, structure: Addr, mask: Mask)

  function Changed(was: Mask, grant: bool, mask: Mask): Mask {
    if grant then was | mask else was & !mask
  }

  function MaskAfter(was: Mask, op: Op): Mask {
    Changed(was, op.Grant?, op.mask)
  }

  function MasksAfter(masks: Masks, op: Op): Masks {
    masks[op.structure := MaskAfter(MaskOf(masks, op.structure), op)]
  }

  // A revocation does not create a table.
  function Apply(view: View, op: Op): View {
    if op.Grant? || op.user in view then view[op.user := MasksAfter(MasksOf(view, op.user), op)] else view
  }

  function Replay(log: seq<Op>): View {
    if log == [] then map[] else Apply(Replay(log[..|log| - 1]), log[|log| - 1])
  }

  // One of the sixteen bits.
  predicate IsBit(bit: Mask) { bit != 0 && bit & (bit - 1) == 0 }

  // The mask has every bit that is required.
  ghost predicate GivesAll(mask: Mask, required: Mask) {
    forall bit: Mask :: IsBit(bit) ==> Gives(mask, required, bit)
  }

  predicate Gives(mask: Mask, required: Mask, bit: Mask) { required & bit != 0 ==> mask & bit != 0 }

  lemma LowestBit(x: Mask)
    requires x != 0
    ensures IsBit(x & (!x + 1)) && x & (x & (!x + 1)) == x & (!x + 1)
  {
  }

  lemma SubsetGives(mask: Mask, required: Mask, bit: Mask)
    requires HasSubset(mask, required)
    ensures Gives(mask, required, bit)
  {
    assert required & bit == (mask & bit) & required;
  }

  lemma MissingBit(mask: Mask, required: Mask, bit: Mask)
    requires (required & !mask) & bit == bit && bit != 0
    ensures !Gives(mask, required, bit)
  {
    assert required & bit == bit && mask & bit == 0;
  }

  lemma SomethingIsMissing(mask: Mask, required: Mask)
    requires !HasSubset(mask, required)
    ensures required & !mask != 0
  {
  }

  lemma LowestOf(x: Mask) returns (bit: Mask)
    requires x != 0
    ensures IsBit(bit) && x & bit == bit
  {
    LowestBit(x);
    bit := x & (!x + 1);
  }

  lemma MissingBitOf(mask: Mask, required: Mask) returns (bit: Mask)
    requires !HasSubset(mask, required)
    ensures IsBit(bit) && !Gives(mask, required, bit)
  {
    SomethingIsMissing(mask, required);
    bit := LowestOf(required & !mask);
    MissingBit(mask, required, bit);
  }

  lemma SubsetGivesAll(mask: Mask, required: Mask)
    requires HasSubset(mask, required)
    ensures GivesAll(mask, required)
  {
    forall bit: Mask | IsBit(bit) ensures Gives(mask, required, bit) {
      SubsetGives(mask, required, bit);
    }
  }

  // The comparison of the masks is one of their bits.
  lemma SubsetIsBitwise(mask: Mask, required: Mask)
    ensures HasSubset(mask, required) <==> GivesAll(mask, required)
  {
    if HasSubset(mask, required) {
      SubsetGivesAll(mask, required);
    } else {
      var bit := MissingBitOf(mask, required);
    }
  }

  predicate Touches(op: Op, user: Addr, structure: Addr, bit: Mask) {
    op.user == user && op.structure == structure && op.mask & bit != 0
  }

  // Whether the last operation that touched the bit granted it.
  predicate LastIsGrant(log: seq<Op>, user: Addr, structure: Addr, bit: Mask) {
    log != [] &&
    var last := log[|log| - 1];
    if Touches(last, user, structure, bit) then last.Grant? else LastIsGrant(log[..|log| - 1], user, structure, bit)
  }

  lemma GrantBit(was: Mask, mask: Mask, bit: Mask)
    ensures (was | mask) & bit != 0 <==> was & bit != 0 || mask & bit != 0
  {
  }

  lemma RevokeBit(was: Mask, mask: Mask, bit: Mask)
    requires IsBit(bit)
    ensures (was & !mask) & bit != 0 <==> was & bit != 0 && mask & bit == 0
  {
  }

  lemma BitAfter(was: Mask, grant: bool, mask: Mask, bit: Mask)
    requires IsBit(bit)
    ensures Changed(was, grant, mask) & bit != 0 <==> if mask & bit != 0 then grant else was & bit != 0
  {
    if grant {
      GrantBit(was, mask, bit);
    } else {
      RevokeBit(was, mask, bit);
    }
  }

  lemma NothingToRevoke(op: Op)
    requires op.Revoke?
    ensures MaskAfter(0, op) == 0
  {
  }

  lemma PermittedAfter(view: View, op: Op, user: Addr, structure: Addr)
    ensures Permitted(Apply(view, op), user, structure) ==
            if op.user == user && op.structure == structure then MaskAfter(Permitted(view, user, structure), op)
            else Permitted(view, user, structure)
  {
    if op.Revoke? {
      NothingToRevoke(op);
    }
  }

  // After any run, a bit is set exactly when the last operation on it was a grant.
  lemma {:induction false} BitIsLastOperation(log: seq<Op>, user: Addr, structure: Addr, bit: Mask)
    requires IsBit(bit)
    ensures Permitted(Replay(log), user, structure) & bit != 0 <==> LastIsGrant(log, user, structure, bit)
  {
    if log == [] {
      assert Permitted(Replay(log), user, structure) == 0;
      assert (0 as Mask) & bit == 0;
    } else {
      var rest, last := log[..|log| - 1], log[|log| - 1];
      BitIsLastOperation(rest, user, structure, bit);
      PermittedAfter(Replay(rest), last, user, structure);
      BitAfter(Permitted(Replay(rest), user, structure), last.Grant?, last.mask, bit);
    }
  }
}
