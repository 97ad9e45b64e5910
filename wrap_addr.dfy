/**
 * The `wrap_addr` instruction of the IR: it builds an existential container
 * of type `interface` around the address of a witness value, carrying the
 * witness table of that value's conformance as payload.
 *
 * The IR's type and operand universes are abstracted: an operand is an
 * opaque reference, a lowered type pairs a front-end type with whether it
 * denotes an address or an object, and the module's typing of operands is a
 * total function supplied with the module.
 */
module WrapAddr {

  import opened SourceRanges

  /** The type of an existential container, named by the traits it abstracts over. */
  datatype ExistentialType = ExistentialType(interfaces: seq<string>)

  /** A front-end type: an existential, or any other type named by its text. */
  datatype AnyType = Existential(container: ExistentialType) | Other(name: string)

  /** A type as the IR sees it: an object of some type, or the address of one. */
  datatype LoweredType = Object(ast: AnyType) | Address(ast: AnyType)

  /** An IR operand: the result of an instruction, a block parameter, or a constant. */
  datatype Operand =
    | Register(instruction: nat, index: nat)
    | Parameter(block: nat, index: nat)
    | Constant(value: string)

  /** The module being built, reduced to the type it assigns each operand. */
  datatype Module = Module(typeOf: Operand -> LoweredType)

  /** A `wrap_addr` instruction; its stored properties never change once built. */
  datatype WrapAddrInstruction = WrapAddrInstruction(
    witnessOperand: Operand,
    table: Operand,
    interface: LoweredType,
    site: SourceRange)

  /** The types of the values the instruction produces: the container alone. */
  function Types(i: WrapAddrInstruction): (ts: seq<LoweredType>)
    ensures |ts| == 1 && i.interface in ts
  {
    [i.interface]
  }

  /**
   * The operands the instruction uses for data-flow purposes: the witness,
   * and not the table, which is only carried along.
   */
  function Operands(i: WrapAddrInstruction): (os: seq<Operand>)
    ensures |os| == 1 && i.witnessOperand in os
  {
    [i.witnessOperand]
  }

  /**
   * The textual form `wrap_addr <witness>, <table> as <interface>`, given how
   * operands and types are rendered (their renderings are not part of this
   * model).
   */
  function Description(
    i: WrapAddrInstruction,
    showOperand: Operand -> string,
    showType: LoweredType -> string): (text: string)
    ensures var w := showOperand(i.witnessOperand);
            var t := showOperand(i.table);
            && |text| == 10 + |w| + 2 + |t| + 4 + |showType(i.interface)|
            && text[..10] == "wrap_addr "
            && text[10..10 + |w|] == w
            && text[10 + |w|..12 + |w|] == ", "
            && text[12 + |w|..12 + |w| + |t|] == t
            && text[12 + |w| + |t|..16 + |w| + |t|] == " as "
            && text[16 + |w| + |t|..] == showType(i.interface)
  {
    "wrap_addr " + showOperand(i.witnessOperand) + ", " + showOperand(i.table) + " as " + showType(i.interface)
  }

  /**
   * `makeWrapAddr`: the witness must have an address type (anything else is a
   * broken invariant of an earlier phase, so the source traps); the result
   * stores witness, table and anchor as given and has the address of the
   * existential as its type.
   */
  function MakeWrapAddr(
    m: Module,
    witnessOperand: Operand,
    table: Operand,
    interface: ExistentialType,
    anchor: SourceRange): (i: WrapAddrInstruction)
    requires m.typeOf(witnessOperand).Address?
    ensures i.witnessOperand == witnessOperand && i.table == table && i.site == anchor
    ensures Types(i) == [Address(Existential(interface))]
    ensures Operands(i) == [witnessOperand]
    ensures m.typeOf(Operands(i)[0]).Address?
  {
    WrapAddrInstruction(witnessOperand, table, Address(Existential(interface)), anchor)
  }

  /** The table is never among the operands unless it is the witness operand itself. */
  lemma TableIsNotAnOperand(i: WrapAddrInstruction)
    ensures i.table in Operands(i) <==> i.table == i.witnessOperand
  {
  }

  /** The description names witness, table and interface but not the anchor. */
  lemma DescriptionIgnoresSite(
    i: WrapAddrInstruction, site: SourceRange,
    showOperand: Operand -> string, showType: LoweredType -> string)
    ensures Description(i.(site := site), showOperand, showType) == Description(i, showOperand, showType)
  {
  }

  /**
   * Two instructions with the same rendered witness text are described
   * differently exactly when the rest of their rendering differs: the
   * description determines the table's and interface's text.
   */
  lemma DescriptionDeterminesParts(
    i: WrapAddrInstruction, j: WrapAddrInstruction,
    showOperand: Operand -> string, showType: LoweredType -> string)
    requires showOperand(i.witnessOperand) == showOperand(j.witnessOperand)
    requires |showOperand(i.table)| == |showOperand(j.table)|
    ensures Description(i, showOperand, showType) == Description(j, showOperand, showType) <==>
      showOperand(i.table) == showOperand(j.table) && showType(i.interface) == showType(j.interface)
  {
    var di := Description(i, showOperand, showType);
    var dj := Description(j, showOperand, showType);
    var n := 12 + |showOperand(i.witnessOperand)|;
    var t := |showOperand(i.table)|;
    if di == dj {
      assert di[n..n + t] == dj[n..n + t];
      assert di[n + t + 4..] == dj[n + t + 4..];
    }
  }
}
