/** The entities of a stock/flow model: inventories (stocks), flows (rates
    between inventories), variables (derived quantities) and displays, plus
    the dynamically typed arguments the declaration calls accept. */
module Entities {

  type Name = string

  /** The name-to-value mapping an evaluation callback sees for one row. */
  type Context = map<Name, real>

  datatype Option<T> = None | Some(value: T)

  /** What a model author's callback did: returned a value, or raised. */
  datatype Outcome<T> = Returned(value: T) | Raised

  /** A variable callback `f(t, context)`. */
  type VarFn = (real, Context) -> Outcome<real>

  /** A flow callback `f(t, context)`; returning `None` means "no rate". */
  type FlowFn = (real, Context) -> Outcome<Option<real>>

  /** A dynamically typed argument of a declaration call. `Other` stands for
      any other Python value, with its truthiness. */
  datatype Arg = Str(s: string) | Num(x: real) | List(items: seq<Arg>) | NoneArg | Other(truthy: bool)

  /** Python truthiness of an argument. */
  predicate Truthy(a: Arg) {
    match a
    case Str(s) => s != ""
    case Num(x) => x != 0.0
    case List(items) => items != []
    case NoneArg => false
    case Other(t) => t
  }

  /** Which list argument of a display declaration an error is about. */
  datatype Group = Invs | Fs | Vs

  /** The hard errors a declaration call raises. */
  datatype Error =
    | NicknameNotString
    | DuplicateInventory(name: Name)
    | ValuesNotList
    | LengthMismatch
    | NameNotString
    | MissingFlowName
    | SourceNotString
    | SinkNotString
    | ConflictingSource(name: Name)
    | ConflictingSink(name: Name)
    | MissingVarFunction
    | MissingVarName
    | DuplicateVariable(name: Name)
    | DuplicateDisplay(name: Name)
    | NotAList(group: Group)
    | ElementNotString(group: Group)
    | LabelNotString

  datatype Status = Ok | Err(error: Error)

  /** A stock. `outs` and `ins` list the flows that drain and feed it. */
  datatype Inventory = Inventory(name: Name, nickname: Arg, value: real, outs: seq<Name>, ins: seq<Name>)

  /** A transfer rate; an absent source is an external input, an absent
      sink an external loss. `f` is absent only when declared without one. */
  datatype Flow = Flow(name: Name, source: Option<Name>, sink: Option<Name>, f: Option<FlowFn>)

  datatype Variable = Variable(name: Name, f: VarFn)

  datatype Display = Display(name: Name, invs: seq<Name>, fs: seq<Name>, vs: seq<Name>, labelText: Option<string>)

  /** Every inventory's flow lists are still empty: nothing was linked yet. */
  predicate Unlinked(invs: seq<Inventory>) {
    forall k :: 0 <= k < |invs| ==> invs[k].outs == [] && invs[k].ins == []
  }

  /** The keys of an ordered dictionary, in order. */
  function Keys<T>(s: seq<T>, key: T -> Name): (r: seq<Name>)
    ensures |r| == |s| && forall k :: 0 <= k < |s| ==> r[k] == key(s[k])
  {
    seq(|s|, k requires 0 <= k < |s| => key(s[k]))
  }

  function InvNames(s: seq<Inventory>): seq<Name> {
    Keys(s, (i: Inventory) => i.name)
  }

  function FlowNames(s: seq<Flow>): seq<Name> {
    Keys(s, (f: Flow) => f.name)
  }

  function VarNames(s: seq<Variable>): seq<Name> {
    Keys(s, (v: Variable) => v.name)
  }

  function DisplayNames(s: seq<Display>): seq<Name> {
    Keys(s, (d: Display) => d.name)
  }

  /** The keys of an ordered dictionary are distinct. */
  predicate Unique(ns: seq<Name>) {
    forall i, j :: 0 <= i < j < |ns| ==> ns[i] != ns[j]
  }

  /** Position of a key in an ordered dictionary. */
  function IndexOf(ns: seq<Name>, n: Name): (k: nat)
    requires n in ns
    ensures k < |ns| && ns[k] == n
    ensures Unique(ns) ==> forall j :: 0 <= j < |ns| && ns[j] == n ==> j == k
  {
    if ns[0] == n then 0 else 1 + IndexOf(ns[1..], n)
  }
}
