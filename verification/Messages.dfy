/** Vocabulary shared by the parser, the book and the generators: message kinds, decoded
    messages, and the wire codes of NASDAQ TotalView-ITCH 5.0. */
module Messages {
  datatype Option<+T> = None | Some(value: T)

  datatype Kind = Add | AddMpid | ExecPrice | Delete | Execute | Trade | Replace | Cancel

  datatype Side = Bid | Ask

  /** A decoded message. `newRef` equals `ref` except for Replace. */
  datatype Msg = Msg(kind: Kind, timestamp: nat, ref: nat, side: Side, shares: nat, price: nat, newRef: nat)

  /** The type byte that introduces a message of the given kind. */
  function Code(kind: Kind): nat {
    match kind
    case Add => 0x41
    case ExecPrice => 0x43
    case Delete => 0x44
    case Execute => 0x45
    case AddMpid => 0x46
    case Trade => 0x50
    case Replace => 0x55
    case Cancel => 0x58
  }

  /** The kind a type byte stands for, or None for a byte outside the supported subset. */
  function KindOf(code: nat): Option<Kind> {
    if code == 0x41 then Some(Add)
    else if code == 0x43 then Some(ExecPrice)
    else if code == 0x44 then Some(Delete)
    else if code == 0x45 then Some(Execute)
    else if code == 0x46 then Some(AddMpid)
    else if code == 0x50 then Some(Trade)
    else if code == 0x55 then Some(Replace)
    else if code == 0x58 then Some(Cancel)
    else None
  }

  predicate IsAdd(kind: Kind) { kind.Add? || kind.AddMpid? }

  /** Cancel, Execute and Execute-with-Price all take shares away from an order. */
  predicate IsReduce(kind: Kind) { kind.Cancel? || kind.Execute? || kind.ExecPrice? }

  /** Kinds the book must first look up before it can act on them. */
  predicate IsEdit(kind: Kind) { IsReduce(kind) || kind.Delete? || kind.Replace? }
}
