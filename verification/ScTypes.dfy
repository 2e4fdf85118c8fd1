// Element types of sc-memory: sixteen type bits, as sc_types.h lays them out.
module ScTypes {

  type ScType = bv16

  const UNKNOWN: ScType := 0
  const NODE: ScType := 0x1
  const CONNECTOR: ScType := 0x4000
  const COMMON_EDGE: ScType := 0x4004
  const ARC: ScType := 0xC000
  const CONST: ScType := 0x20
  const VAR: ScType := 0x40
  const ANY_BUT_CONSTANCY: ScType := 0xFF9F
  const ANY_BUT_CONSTANCY_AND_NODE: ScType := 0xFF9E

  const VAR_NODE: ScType := 0x41
  const VAR_ARC: ScType := 0xC050
  const CONST_NODE: ScType := 0x21
  const CONST_NODE_LINK: ScType := 0x23
  const CONST_NODE_STRUCTURE: ScType := 0x121
  const CONST_COMMON_ARC: ScType := 0xC028
  const CONST_POS_ARC: ScType := 0xC0B0
  const CONST_PERM_POS_ARC: ScType := 0xC8B0
  const CONST_ACTUAL_TEMP_POS_ARC: ScType := 0xD4B0

  // `sc_type_has_subtype`: every bit of the mask is set.
  predicate HasSubtype(t: ScType, mask: ScType) {
    t & mask == mask
  }

  predicate IsConnector(t: ScType) {
    HasSubtype(t, CONNECTOR)
  }

  // A connector type is an edge or an arc; no ScType constant is both.
  predicate ConnectorType(t: ScType) {
    IsConnector(t) && !(HasSubtype(t, ARC) && HasSubtype(t, COMMON_EDGE))
  }

  // `ScType::UpConstType`
  function UpConst(t: ScType): ScType {
    (t & !VAR) | CONST
  }

  // `made` is `ty` with the constant bit in the place of the variable one, and a node if that is asked for;
  // all other bits are as they were.
  ghost predicate MadeConstant(ty: ScType, made: ScType, isNode: bool) {
    && made & CONST == CONST && made & VAR == 0 && (isNode ==> made & NODE == NODE)
    && SameBits(ty, made, if isNode then ANY_BUT_CONSTANCY_AND_NODE else ANY_BUT_CONSTANCY)
  }

  predicate SameBits(a: ScType, b: ScType, mask: ScType) { a & mask == b & mask }

  lemma ConstantForm(ty: ScType)
    ensures MadeConstant(ty, UpConst(ty), false)
  {
  }

  lemma ConstantNodeForm(ty: ScType)
    ensures MadeConstant(ty, UpConst(ty) | NODE, true)
  {
  }

  // There is one such type.
  lemma ConstantFormIsUnique(ty: ScType, made: ScType)
    requires MadeConstant(ty, made, false)
    ensures made == UpConst(ty)
  {
  }

  lemma Part(a: ScType, b: ScType, mask: ScType, part: ScType)
    requires a & mask == b & mask && part & mask == part
    ensures a & part == b & part
  {
    assert a & part == (a & mask) & part && b & part == (b & mask) & part;
  }

  lemma BesideConstancy(mask: ScType)
    requires mask & CONST == 0 && mask & VAR == 0
    ensures mask & ANY_BUT_CONSTANCY == mask
    ensures mask & NODE == 0 ==> mask & ANY_BUT_CONSTANCY_AND_NODE == mask
  {
  }

  // Every mask beside the constancy, and beside the kind of a node, reads the same in both.
  lemma MadeConstantAgrees(ty: ScType, made: ScType, isNode: bool, mask: ScType)
    requires MadeConstant(ty, made, isNode)
    requires mask & CONST == 0 && mask & VAR == 0 && (isNode ==> mask & NODE == 0)
    ensures made & mask == ty & mask
  {
    BesideConstancy(mask);
    Part(made, ty, if isNode then ANY_BUT_CONSTANCY_AND_NODE else ANY_BUT_CONSTANCY, mask);
  }

  lemma UpConstKeepsKind(ty: ScType)
    ensures IsConnector(UpConst(ty)) <==> IsConnector(ty)
    ensures ConnectorType(ty) <==> ConnectorType(UpConst(ty))
  {
  }

  lemma ArcTypes()
    ensures forall ty: ScType ::
              HasSubtype(ty, CONST_PERM_POS_ARC) || HasSubtype(ty, CONST_COMMON_ARC) ==> IsConnector(ty)
    ensures !HasSubtype(CONST_PERM_POS_ARC, CONST_COMMON_ARC) && !HasSubtype(CONST_COMMON_ARC, CONST_PERM_POS_ARC)
  {
  }
}
