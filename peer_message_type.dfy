/** The message-type codes of the peer protocol and their lookup. */
module PeerMessages {
  import opened Wrappers

  datatype PeerMessageType = INVALID | PART_FILE | ASK_FOR_RESOURCES | RESPONSE_ASK_FOR_RESOURCES | ASK_FOR_PART_FILE
  {
    /** getValue: the code the constant was constructed with. */
    function GetValue(): (v: int)
      ensures -1 <= v <= 3
    {
      match this
      case INVALID => -1
      case PART_FILE => 0
      case ASK_FOR_RESOURCES => 1
      case RESPONSE_ASK_FOR_RESOURCES => 2
      case ASK_FOR_PART_FILE => 3
    }
  }

  /** values(): the constants in declaration order. */
  const Values: seq<PeerMessageType> := [INVALID, PART_FILE, ASK_FOR_RESOURCES, RESPONSE_ASK_FOR_RESOURCES, ASK_FOR_PART_FILE]

  /** The constant table, as declared. */
  lemma CodeTable()
    ensures INVALID.GetValue() == -1 && PART_FILE.GetValue() == 0 && ASK_FOR_RESOURCES.GetValue() == 1
    ensures RESPONSE_ASK_FOR_RESOURCES.GetValue() == 2 && ASK_FOR_PART_FILE.GetValue() == 3
    ensures forall t: PeerMessageType :: t in Values
  {
    forall t: PeerMessageType
      ensures t in Values
    {
      match t
      case INVALID => assert Values[0] == t;
      case PART_FILE => assert Values[1] == t;
      case ASK_FOR_RESOURCES => assert Values[2] == t;
      case RESPONSE_ASK_FOR_RESOURCES => assert Values[3] == t;
      case ASK_FOR_PART_FILE => assert Values[4] == t;
    }
  }

  /** The loop of fromValue: the first of `types` whose code is `value`. */
  function FindByValue(types: seq<PeerMessageType>, value: int): (r: Option<PeerMessageType>)
    ensures r.Some? ==> r.value in types && r.value.GetValue() == value
    ensures r.None? ==> forall t :: t in types ==> t.GetValue() != value
  {
    if types == [] then None
    else if types[0].GetValue() == value then Some(types[0])
    else FindByValue(types[1..], value)
  }

  /** fromValue: the constant with that code, INVALID when there is none. */
  function FromValue(value: int): (t: PeerMessageType)
    ensures t.GetValue() == value <==> exists u: PeerMessageType :: u.GetValue() == value
    ensures t.GetValue() != value ==> t == INVALID
  {
    CodeTable();
    match FindByValue(Values, value)
    case Some(t) => t
    case None => INVALID
  }

  /** The codes are pairwise distinct. */
  lemma CodesDistinct(t: PeerMessageType, u: PeerMessageType)
    ensures t.GetValue() == u.GetValue() ==> t == u
  {
  }

  /** Looking a constant's own code up gives that constant back, INVALID included. */
  lemma FromValueGetValue(t: PeerMessageType)
    ensures FromValue(t.GetValue()) == t
  {
    CodeTable();
    var r := FindByValue(Values, t.GetValue());
    if r.Some? {
      CodesDistinct(r.value, t);
    }
  }

  /** Every integer other than -1, 0, 1, 2 and 3 maps to INVALID. */
  lemma FromValueOutsideTable(value: int)
    requires value < -1 || value > 3
    ensures FromValue(value) == INVALID
  {
  }
}
