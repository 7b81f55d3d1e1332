/** The cJSON tree as a value: child lists are `next` chains whose nodes carry an optional name. */
module CJsonValue {
  import opened Text

  /** What strtod reads, before rounding: mant * 10^exp. */
  datatype Decimal = Decimal(mant: int, exp: int)

  datatype Json =
    | Null
    | False
    | True
    | Number(num: Decimal)
    | String(str: Bytes)
    | Array(child: Chain)
    | Object(child: Chain)

  datatype Chain = End | Node(name: Option<Bytes>, item: Json, next: Chain)

  function Append(c: Chain, name: Option<Bytes>, v: Json): Chain {
    match c
    case End => Node(name, v, End)
    case Node(n, i, next) => Node(n, i, Append(next, name, v))
  }

  function Concat(c: Chain, d: Chain): Chain {
    match c
    case End => d
    case Node(name, v, next) => Node(name, v, Concat(next, d))
  }

  lemma {:induction false} ConcatAppend(c: Chain, name: Option<Bytes>, v: Json, d: Chain)
    ensures Concat(Append(c, name, v), d) == Concat(c, Node(name, v, d))
  {
    match c
    case End =>
    case Node(_, _, next) => ConcatAppend(next, name, v, d);
  }

  lemma {:induction false} ConcatEnd(c: Chain)
    ensures Concat(c, End) == c
  {
    match c
    case End =>
    case Node(_, _, next) => ConcatEnd(next);
  }

  function Max(a: nat, b: nat): nat { if a < b then b else a }

  /** How deeply containers nest: 0 for a scalar, 1 for a container of scalars. */
  function Nesting(v: Json): nat {
    match v
    case Array(c) => 1 + ChainNesting(c)
    case Object(c) => 1 + ChainNesting(c)
    case _ => 0
  }

  function ChainNesting(c: Chain): nat {
    match c
    case End => 0
    case Node(_, v, next) => Max(Nesting(v), ChainNesting(next))
  }

  /** Integers that "%1.15g" prints as plain digits. */
  predicate PlainInteger(d: Decimal) {
    d.exp == 0 && -1_000_000_000_000_000 < d.mant < 1_000_000_000_000_000
  }

  predicate Printable(v: Json) {
    match v
    case Number(d) => PlainInteger(d)
    case Array(c) => ChainPrintable(c)
    case Object(c) => ChainPrintable(c)
    case _ => true
  }

  predicate ChainPrintable(c: Chain) {
    match c
    case End => true
    case Node(_, v, next) => Printable(v) && ChainPrintable(next)
  }

  function NameBytes(name: Option<Bytes>): Bytes {
    match name
    case None => []
    case Some(s) => CString(s)
  }

  /** The tree a reader of the printed text can get back: strings end at their first NUL, array
      items have no name, an object member without a name gets the empty one. */
  function Norm(v: Json): Json {
    match v
    case String(s) => String(CString(s))
    case Array(c) => Array(NormItems(c))
    case Object(c) => Object(NormMembers(c))
    case _ => v
  }

  function NormItems(c: Chain): Chain {
    match c
    case End => End
    case Node(_, v, next) => Node(None, Norm(v), NormItems(next))
  }

  function NormMembers(c: Chain): Chain {
    match c
    case End => End
    case Node(name, v, next) => Node(Some(NameBytes(name)), Norm(v), NormMembers(next))
  }

  /** Trees built the ordinary way: NUL-free strings, names on members and nowhere else. */
  predicate Ordinary(v: Json) {
    match v
    case String(s) => NUL !in s
    case Array(c) => OrdinaryItems(c)
    case Object(c) => OrdinaryMembers(c)
    case _ => true
  }

  predicate OrdinaryItems(c: Chain) {
    match c
    case End => true
    case Node(name, v, next) => name == None && Ordinary(v) && OrdinaryItems(next)
  }

  predicate OrdinaryMembers(c: Chain) {
    match c
    case End => true
    case Node(name, v, next) => name.Some? && NUL !in name.value && Ordinary(v) && OrdinaryMembers(next)
  }

  /** Printing loses nothing exactly on ordinary trees. */
  lemma {:induction false} NormFixes(v: Json)
    ensures Norm(v) == v <==> Ordinary(v)
    ensures Ordinary(Norm(v))
  {
    match v
    case Array(c) => NormItemsFixes(c);
    case Object(c) => NormMembersFixes(c);
    case _ =>
  }

  lemma {:induction false} NormItemsFixes(c: Chain)
    ensures NormItems(c) == c <==> OrdinaryItems(c)
    ensures OrdinaryItems(NormItems(c))
  {
    match c
    case End =>
    case Node(_, v, next) => NormFixes(v); NormItemsFixes(next);
  }

  lemma {:induction false} NormMembersFixes(c: Chain)
    ensures NormMembers(c) == c <==> OrdinaryMembers(c)
    ensures OrdinaryMembers(NormMembers(c))
  {
    match c
    case End =>
    case Node(_, v, next) => NormFixes(v); NormMembersFixes(next);
  }

  /** The outcome of a parsing step on a suffix of the text: the value with the suffix after
      it, or the suffix at which the cursor is left on failure. */
  datatype Parsed<+T> = Ok(value: T, rest: Bytes) | Fail(rest: Bytes)
}
