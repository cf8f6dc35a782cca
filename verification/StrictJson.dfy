/** The duplicate-key walk over a JSON document's tokens, against the document
    as a tree (object name uniqueness, section 4 of RFC 8259). */
module StrictJson {
  import opened Octets

  datatype Token = OpenBrace | CloseBrace | OpenBracket | CloseBracket | Name(s: Bytes) | Scalar

  datatype WalkError = NotJson | DuplicateKey(key: Bytes)

  /** Walked carries the keys of an object and the position after it. */
  datatype Walk = Walked(keys: seq<Bytes>, next: nat) | Failed(why: WalkError)

  /** Case folding, as a choice of one spelling for each class of equal keys. */
  type CaseFold = Bytes -> Bytes

  // --------------------------------------------------- the walk, on positions

  predicate More(ts: seq<Token>, pos: nat) {
    pos < |ts| && ts[pos] != CloseBrace && ts[pos] != CloseBracket
  }

  predicate Seen(fold: CaseFold, keys: seq<Bytes>, key: Bytes) {
    exists i :: 0 <= i < |keys| && fold(keys[i]) == fold(key)
  }

  predicate IsCloser(t: Token) {
    t == CloseBrace || t == CloseBracket
  }

  function WalkValue(fold: CaseFold, ts: seq<Token>, pos: nat): (w: Walk)
    ensures w.Walked? ==> pos < w.next <= |ts|
    ensures w.Walked? && (ts[pos] == OpenBrace || ts[pos] == OpenBracket) ==>
              pos + 1 < w.next && IsCloser(ts[w.next - 1])
    decreases |ts| - pos, 0
  {
    if pos >= |ts| then Failed(NotJson)
    else match ts[pos]
      case OpenBrace => WalkMembers(fold, ts, pos + 1, [])
      case OpenBracket => WalkItems(fold, ts, pos + 1)
      case _ => Walked([], pos + 1)
  }

  function WalkItems(fold: CaseFold, ts: seq<Token>, pos: nat): (w: Walk)
    ensures w.Walked? ==> pos < w.next <= |ts| && IsCloser(ts[w.next - 1])
    decreases |ts| - pos, 1
  {
    if More(ts, pos) then
      match WalkValue(fold, ts, pos)
      case Failed(e) => Failed(e)
      case Walked(_, next) => WalkItems(fold, ts, next)
    else if pos < |ts| then Walked([], pos + 1) else Failed(NotJson)
  }

  function WalkMembers(fold: CaseFold, ts: seq<Token>, pos: nat, keys: seq<Bytes>): (w: Walk)
    ensures w.Walked? ==> pos < w.next <= |ts| && IsCloser(ts[w.next - 1])
    decreases |ts| - pos, 1
  {
    if More(ts, pos) then
      if !ts[pos].Name? then Failed(NotJson)
      else if Seen(fold, keys, ts[pos].s) then Failed(DuplicateKey(ts[pos].s))
      else match WalkValue(fold, ts, pos + 1)
        case Failed(e) => Failed(e)
        case Walked(_, next) => WalkMembers(fold, ts, next, keys + [ts[pos].s])
    else if pos < |ts| then Walked(keys, pos + 1) else Failed(NotJson)
  }

  // ------------------------------------------------- the walk, as it is run

  class Decoder {
    const tokens: seq<Token>
    var pos: nat

    ghost predicate Valid()
      reads this
    {
      pos <= |tokens|
    }

    constructor (tokens: seq<Token>)
      ensures Valid() && pos == 0 && this.tokens == tokens
    {
      this.tokens, pos := tokens, 0;
    }

    method Next() returns (t: Option<Token>)
      requires Valid()
      modifies this
      ensures Valid()
      ensures if old(pos) < |tokens| then t == Some(tokens[old(pos)]) && pos == old(pos) + 1
              else t == None && pos == old(pos)
    {
      if pos == |tokens| {
        return None;
      }
      t := Some(tokens[pos]);
      pos := pos + 1;
    }
  }

  /** walkObject, after the opening brace. */
  method RunObject(fold: CaseFold, dec: Decoder) returns (keys: seq<Bytes>, error: Option<WalkError>)
    requires dec.Valid()
    modifies dec
    ensures dec.Valid()
    ensures match WalkMembers(fold, dec.tokens, old(dec.pos), [])
            case Walked(ks, next) => error == None && keys == ks && dec.pos == next
            case Failed(e) => error == Some(e) && keys == []
    decreases |dec.tokens| - dec.pos, 1
  {
    keys := [];
    ghost var start := dec.pos;
    while More(dec.tokens, dec.pos)
      invariant dec.Valid() && start <= dec.pos
      invariant WalkMembers(fold, dec.tokens, start, []) == WalkMembers(fold, dec.tokens, dec.pos, keys)
      decreases |dec.tokens| - dec.pos
    {
      var t := dec.Next();
      if !t.value.Name? {
        return [], Some(NotJson);
      }
      var key := t.value.s;
      if Seen(fold, keys, key) {
        return [], Some(DuplicateKey(key));
      }
      keys := keys + [key];
      var failed := RunValue(fold, dec);
      if failed.Some? {
        return [], failed;
      }
    }
    var t := dec.Next();
    if t.None? {
      return [], Some(NotJson);
    }
    return keys, None;
  }

  /** walkValue. */
  method RunValue(fold: CaseFold, dec: Decoder) returns (error: Option<WalkError>)
    requires dec.Valid()
    modifies dec
    ensures dec.Valid()
    ensures match WalkValue(fold, dec.tokens, old(dec.pos))
            case Walked(_, next) => error == None && dec.pos == next
            case Failed(e) => error == Some(e)
    decreases |dec.tokens| - dec.pos, 0
  {
    var t := dec.Next();
    if t.None? {
      return Some(NotJson);
    }
    match t.value {
      case OpenBrace =>
        var _, failed := RunObject(fold, dec);
        return failed;
      case OpenBracket =>
        ghost var start := dec.pos;
        while More(dec.tokens, dec.pos)
          invariant dec.Valid() && start <= dec.pos
          invariant WalkItems(fold, dec.tokens, start) == WalkItems(fold, dec.tokens, dec.pos)
          decreases |dec.tokens| - dec.pos
        {
          var failed := RunValue(fold, dec);
          if failed.Some? {
            return failed;
          }
        }
        var close := dec.Next();
        return if close.None? then Some(NotJson) else None;
      case _ => return None;
    }
  }

  /** RejectDuplicateKeys: a document that is not an object has no keys to check. */
  method RejectDuplicateKeys(fold: CaseFold, tokens: seq<Token>) returns (keys: seq<Bytes>, error: Option<WalkError>)
    ensures if tokens == [] || tokens[0] != OpenBrace then keys == [] && error == None
            else match WalkMembers(fold, tokens, 1, [])
                 case Walked(ks, _) => error == None && keys == ks
                 case Failed(e) => error == Some(e) && keys == []
  {
    var dec := new Decoder(tokens);
    var t := dec.Next();
    if t.None? || t.value != OpenBrace {
      return [], None;
    }
    keys, error := RunObject(fold, dec);
  }

  // ---------------------------------------------------------- the documents

  datatype Json = Atom | Text(s: Bytes) | List(items: Items) | Object(members: Members)
  datatype Items = NoItems | Item(head: Json, tail: Items)
  datatype Members = NoMembers | Member(key: Bytes, value: Json, rest: Members)

  function Tokens(j: Json): (ts: seq<Token>)
    ensures |ts| > 0 && ts[0] != CloseBrace && ts[0] != CloseBracket
  {
    match j
    case Atom => [Scalar]
    case Text(s) => [Name(s)]
    case List(items) => [OpenBracket] + (ItemTokens(items) + [CloseBracket])
    case Object(members) => [OpenBrace] + (MemberTokens(members) + [CloseBrace])
  }

  function ItemTokens(items: Items): seq<Token> {
    match items
    case NoItems => []
    case Item(head, tail) => Tokens(head) + ItemTokens(tail)
  }

  function MemberTokens(members: Members): seq<Token> {
    match members
    case NoMembers => []
    case Member(key, value, rest) => [Name(key)] + Tokens(value) + MemberTokens(rest)
  }

  function Names(members: Members): seq<Bytes> {
    match members
    case NoMembers => []
    case Member(key, _, rest) => [key] + Names(rest)
  }

  ghost predicate Distinct(fold: CaseFold, keys: seq<Bytes>) {
    forall i, j :: 0 <= i < j < |keys| ==> fold(keys[i]) != fold(keys[j])
  }

  /** No object at any depth holds two keys equal under case folding. */
  ghost predicate Unambiguous(fold: CaseFold, j: Json) {
    match j
    case Atom => true
    case Text(_) => true
    case List(items) => ItemsUnambiguous(fold, items)
    case Object(members) => Distinct(fold, Names(members)) && MembersUnambiguous(fold, members)
  }

  ghost predicate ItemsUnambiguous(fold: CaseFold, items: Items) {
    items.Item? ==> Unambiguous(fold, items.head) && ItemsUnambiguous(fold, items.tail)
  }

  ghost predicate MembersUnambiguous(fold: CaseFold, members: Members) {
    members.Member? ==> Unambiguous(fold, members.value) && MembersUnambiguous(fold, members.rest)
  }

  /** The outcome on a well-formed value: all its tokens consumed and keys
      collected, or a duplicate reported. */
  ghost predicate Decides(w: Walk, ok: bool, keys: seq<Bytes>, next: nat) {
    if ok then w == Walked(keys, next) else w.Failed? && w.why.DuplicateKey?
  }

  function KeysOf(j: Json): seq<Bytes> {
    if j.Object? then Names(j.members) else []
  }

  /** The walk consumes exactly one value's tokens, wherever they stand, and
      succeeds exactly when the value is unambiguous. */
  lemma {:induction false} WalkDecides(fold: CaseFold, ts: seq<Token>, pos: nat, j: Json)
    requires At(ts, pos, Tokens(j))
    ensures Decides(WalkValue(fold, ts, pos), Unambiguous(fold, j), KeysOf(j), pos + |Tokens(j)|)
    decreases j, 1
  {
    match j
    case Atom =>
    case Text(_) =>
    case List(items) => ItemsDecide(fold, ts, pos + 1, items);
    case Object(members) =>
      MembersDecide(fold, ts, pos + 1, members, []);
      assert [] + Names(members) == Names(members);
  }

  lemma {:induction false} ItemsDecide(fold: CaseFold, ts: seq<Token>, pos: nat, items: Items)
    requires At(ts, pos, ItemTokens(items) + [CloseBracket])
    ensures Decides(WalkItems(fold, ts, pos), ItemsUnambiguous(fold, items), [], pos + |ItemTokens(items)| + 1)
    decreases items, 0
  {
    match items
    case NoItems => assert ItemTokens(items) + [CloseBracket] == [CloseBracket];
    case Item(head, tail) =>
      var rest := ItemTokens(tail) + [CloseBracket];
      assert ItemTokens(items) + [CloseBracket] == Tokens(head) + rest;
      AtSplit(ts, pos, Tokens(head), rest);
      WalkDecides(fold, ts, pos, head);
      ItemsDecide(fold, ts, pos + |Tokens(head)|, tail);
  }

  lemma {:induction false} MembersDecide(fold: CaseFold, ts: seq<Token>, pos: nat, members: Members, keys: seq<Bytes>)
    requires At(ts, pos, MemberTokens(members) + [CloseBrace]) && Distinct(fold, keys)
    ensures Decides(WalkMembers(fold, ts, pos, keys),
                    Distinct(fold, keys + Names(members)) && MembersUnambiguous(fold, members),
                    keys + Names(members), pos + |MemberTokens(members)| + 1)
    decreases members, 0
  {
    match members
    case NoMembers =>
      assert MemberTokens(members) + [CloseBrace] == [CloseBrace] && keys + Names(members) == keys;
    case Member(key, value, rest) =>
      var after := MemberTokens(rest) + [CloseBrace];
      assert MemberTokens(members) + [CloseBrace] == [Name(key)] + (Tokens(value) + after);
      AtSplit(ts, pos, [Name(key)], Tokens(value) + after);
      AtSplit(ts, pos + 1, Tokens(value), after);
      assert keys + Names(members) == keys + [key] + Names(rest);
      DistinctSnoc(fold, keys, key, Names(rest));
      if !Seen(fold, keys, key) {
        WalkDecides(fold, ts, pos + 1, value);
        MembersDecide(fold, ts, pos + 1 + |Tokens(value)|, rest, keys + [key]);
      }
  }

  lemma DistinctSnoc(fold: CaseFold, keys: seq<Bytes>, key: Bytes, more: seq<Bytes>)
    requires Distinct(fold, keys)
    ensures Distinct(fold, keys + [key]) <==> !Seen(fold, keys, key)
    ensures Seen(fold, keys, key) ==> !Distinct(fold, keys + [key] + more)
  {
    var all := keys + [key] + more;
    if Seen(fold, keys, key) {
      var i :| 0 <= i < |keys| && fold(keys[i]) == fold(key);
      assert all[i] == keys[i] && all[|keys|] == key && (keys + [key])[|keys|] == key && (keys + [key])[i] == keys[i];
    }
  }

  /** So a whole object document is accepted exactly when it is unambiguous, and
      its top-level keys come back as written. */
  lemma DocumentDecided(fold: CaseFold, members: Members)
    ensures Decides(WalkMembers(fold, Tokens(Object(members)), 1, []), Unambiguous(fold, Object(members)),
                    Names(members), |Tokens(Object(members))|)
  {
    var ts := Tokens(Object(members));
    AtSlice(ts, 0, ts);
    WalkDecides(fold, ts, 0, Object(members));
  }

  /** A document cut short is refused: without a closer at its end an object or array
      is never walked. */
  lemma CutShort(fold: CaseFold, ts: seq<Token>)
    requires ts != [] && forall i :: 0 <= i < |ts| ==> !IsCloser(ts[i])
    ensures ts[0] == OpenBrace || ts[0] == OpenBracket ==> WalkValue(fold, ts, 0).Failed?
    ensures ts[0] == OpenBrace ==> WalkMembers(fold, ts, 1, []).Failed?
  {
  }
}
