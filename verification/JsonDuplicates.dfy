/**
 The duplicate-key check of validation/json.go: a recursive walk over the token
 cursor of a JSON decoder.
 */
module JsonDuplicates {

  import opened Wrappers

  datatype Atom = Null | Bool(b: bool) | Number(literal: string) | Text(s: string)

  datatype List<+T> = Nil | Cons(head: T, tail: List<T>)

  datatype Member = Member(key: string, value: Json)

  datatype Json = Scalar(a: Atom) | Arr(items: List<Json>) | Obj(members: List<Member>)

  datatype Token = Delim(c: char) | Plain(a: Atom)

  datatype Error = Duplicate(key: string) | Decoding | Unmarshalling | Joined(errs: seq<Error>)

  type Outcome = Option<Error>

  // ------------------------------------------------------ tokens of a value

  // The tokens of v, with more tokens after them.
  function Tokens(v: Json, after: List<Token>): List<Token> {
    match v
    case Scalar(a) => Cons(Plain(a), after)
    case Arr(items) => Cons(Delim('['), ItemTokens(items, Cons(Delim(']'), after)))
    case Obj(members) => Cons(Delim('{'), MemberTokens(members, Cons(Delim('}'), after)))
  }

  function ItemTokens(items: List<Json>, after: List<Token>): List<Token> {
    match items
    case Nil => after
    case Cons(x, rest) => Tokens(x, ItemTokens(rest, after))
  }

  function MemberTokens(members: List<Member>, after: List<Token>): List<Token> {
    match members
    case Nil => after
    case Cons(m, rest) => Cons(Plain(Text(m.key)), Tokens(m.value, MemberTokens(rest, after)))
  }

  // --------------------------------------------------------------- the walk

  // errors.Join: nothing when there is nothing to join.
  function JoinErrors(errs: seq<Error>): Outcome {
    if errs == [] then None else Some(Joined(errs))
  }

  function Append(errs: seq<Error>, e: Outcome): seq<Error> {
    if e.Some? then errs + [e.value] else errs
  }

  function OwnErrors(key: string, seen: set<string>): seq<Error> {
    if key in seen then [Duplicate(key)] else []
  }

  function Length<T>(l: List<T>): nat {
    if l.Nil? then 0 else 1 + Length(l.tail)
  }

  predicate HasMore(rest: List<Token>) {
    rest.Cons? && rest.head != Delim('}') && rest.head != Delim(']')
  }

  // What the walk of one value leaves unread, and its error. It is total: a
  // stream that ends early, or has no string where a key is due, is a decoding
  // error.
  function Walk(tokens: List<Token>): (r: (List<Token>, Outcome))
    ensures Length(r.0) <= Length(tokens) && (tokens.Cons? ==> Length(r.0) < Length(tokens))
    decreases Length(tokens), 0
  {
    match tokens
    case Nil => (tokens, Some(Decoding))
    case Cons(t, rest) =>
      if t == Delim('{') then WalkMembers(rest, {}, [])
      else if t == Delim('[') then WalkItems(rest, [])
      else (rest, None)
  }

  function WalkMembers(tokens: List<Token>, keys: set<string>, errs: seq<Error>): (r: (List<Token>, Outcome))
    ensures Length(r.0) <= Length(tokens)
    decreases Length(tokens), 1
  {
    if !HasMore(tokens) then Close(tokens, errs)
    else match tokens.head
      case Plain(Text(key)) =>
        var (rest, e) := Walk(tokens.tail);
        WalkMembers(rest, keys + {key}, Append(errs + OwnErrors(key, keys), e))
      case _ => (tokens.tail, Some(Decoding))
  }

  function WalkItems(tokens: List<Token>, errs: seq<Error>): (r: (List<Token>, Outcome))
    ensures Length(r.0) <= Length(tokens)
    decreases Length(tokens), 1
  {
    if !HasMore(tokens) then Close(tokens, errs)
    else
      var (rest, e) := Walk(tokens);
      WalkItems(rest, Append(errs, e))
  }

  function Close(tokens: List<Token>, errs: seq<Error>): (List<Token>, Outcome) {
    if tokens.Cons? then (tokens.tail, JoinErrors(errs)) else (tokens, Some(Decoding))
  }

  /** The decoder's cursor: the tokens it has still to deliver. */
  class Decoder {
    var rest: List<Token>

    constructor (tokens: List<Token>)
      ensures rest == tokens
    {
      rest := tokens;
    }

    method Token() returns (t: Option<Token>)
      modifies this
      ensures old(rest).Cons? ==> t == Some(old(rest).head) && rest == old(rest).tail
      ensures old(rest).Nil? ==> t == None && rest == Nil
    {
      if rest.Nil? {
        return None;
      }
      t := Some(rest.head);
      rest := rest.tail;
    }

    predicate More()
      reads this
    {
      HasMore(rest)
    }
  }

  method CheckToken(dec: Decoder) returns (err: Outcome)
    modifies dec
    ensures (dec.rest, err) == Walk(old(dec.rest))
    decreases Length(dec.rest)
  {
    ghost var start := dec.rest;
    var t := dec.Token();
    if t.None? {
      return Some(Decoding);
    }
    if !t.value.Delim? {
      return None;
    }
    var dupErrs: seq<Error> := [];
    if t.value.c == '{' {
      var keys: set<string> := {};
      while dec.More()
        invariant start.Cons? && Length(dec.rest) < Length(start)
        invariant WalkMembers(dec.rest, keys, dupErrs) == Walk(start)
        decreases Length(dec.rest)
      {
        var kt := dec.Token();
        if kt.None? || !kt.value.Plain? || !kt.value.a.Text? {
          return Some(Decoding);
        }
        var key := kt.value.a.s;
        ghost var found := dupErrs + OwnErrors(key, keys);
        if key in keys {
          dupErrs := dupErrs + [Duplicate(key)];
        }
        assert dupErrs == found;
        keys := keys + {key};
        var e := CheckToken(dec);
        dupErrs := Append(dupErrs, e);
      }
      var close := dec.Token();
      if close.None? {
        return Some(Decoding);
      }
    } else if t.value.c == '[' {
      while dec.More()
        invariant start.Cons? && Length(dec.rest) < Length(start)
        invariant WalkItems(dec.rest, dupErrs) == Walk(start)
        decreases Length(dec.rest)
      {
        var e := CheckToken(dec);
        dupErrs := Append(dupErrs, e);
      }
      var close := dec.Token();
      if close.None? {
        return Some(Decoding);
      }
    }
    return JoinErrors(dupErrs);
  }

  // What the decoder of the whole text meets: bytes that are no JSON document, or
  // the tokens of one. A document is inRange when json.Unmarshal can hold all its
  // numbers as float64 and it is nested no deeper than the decoder goes.
  datatype Input = Malformed | Document(v: Json, inRange: bool)

  // json.Unmarshal into a map: only an object, or null, fits.
  predicate Unmarshals(input: Input) {
    input.Document? && input.inRange && (input.v.Obj? || input.v == Scalar(Null))
  }

  method JSONNoDuplicateKeys(input: Input) returns (err: Outcome)
    ensures input.Malformed? ==> err == Some(Unmarshalling)
    ensures input.Document? ==>
              match input.v
              case Obj(_) =>
                if !input.inRange then err == Some(Unmarshalling)
                else (err == None <==> NoDuplicates(input.v)) && OutcomeLeaves(err) == Excess(input.v)
              case Arr(_) => err == Some(Unmarshalling)
              case Scalar(a) => err == if a == Null && input.inRange then None else Some(Unmarshalling)
  {
    if !Unmarshals(input) {
      return Some(Unmarshalling);
    }
    var dec := new Decoder(Tokens(input.v, Nil));
    err := CheckToken(dec);
    WalkValue(input.v, Nil);
    NoErrorsIff(input.v);
    LeavesAreExcess(input.v);
  }

  // --------------------------------------------- the walk of a whole document

  // The errors of a value, read off the value itself.
  function Errors(v: Json): Outcome {
    match v
    case Scalar(_) => None
    case Arr(items) => JoinErrors(ItemErrors(items))
    case Obj(members) => JoinErrors(MemberErrors(members, {}))
  }

  function ItemErrors(items: List<Json>): seq<Error> {
    match items
    case Nil => []
    case Cons(x, rest) => Append([], Errors(x)) + ItemErrors(rest)
  }

  function MemberErrors(members: List<Member>, seen: set<string>): seq<Error> {
    match members
    case Nil => []
    case Cons(m, rest) =>
      OwnErrors(m.key, seen)
      + Append([], Errors(m.value))
      + MemberErrors(rest, seen + {m.key})
  }

  lemma AppendAssoc(errs: seq<Error>, own: seq<Error>, e: Outcome, more: seq<Error>)
    ensures Append(errs + own, e) + more == errs + (own + Append([], e) + more)
    ensures Append(errs, e) + more == errs + (Append([], e) + more)
    ensures errs + [] == errs && [] + more == more
  {
    if e.Some? {
      assert errs + own + [e.value] + more == errs + (own + [e.value] + more);
      assert errs + [e.value] + more == errs + ([e.value] + more);
    }
  }

  // A value never starts with a closing delimiter.
  lemma TokensStart(v: Json, after: List<Token>)
    ensures HasMore(Tokens(v, after))
  {
  }

  // Started at any value, whatever follows it, the walk stops right after the
  // value's last token, with the errors of the value.
  lemma {:induction false} WalkValue(v: Json, after: List<Token>)
    ensures Walk(Tokens(v, after)) == (after, Errors(v))
    decreases v
  {
    match v
    case Scalar(a) =>
    case Arr(items) =>
      WalkItemList(items, after, []);
      AppendAssoc([], [], None, ItemErrors(items));
    case Obj(members) =>
      WalkMemberList(members, after, {}, []);
      AppendAssoc([], [], None, MemberErrors(members, {}));
  }

  lemma {:induction false} WalkItemList(items: List<Json>, after: List<Token>, errs: seq<Error>)
    ensures WalkItems(ItemTokens(items, Cons(Delim(']'), after)), errs) ==
            (after, JoinErrors(errs + ItemErrors(items)))
    decreases items
  {
    match items
    case Nil => AppendAssoc(errs, [], None, []);
    case Cons(x, tail) =>
      var rest := ItemTokens(tail, Cons(Delim(']'), after));
      TokensStart(x, rest);
      WalkValue(x, rest);
      WalkItemList(tail, after, Append(errs, Errors(x)));
      AppendAssoc(errs, [], Errors(x), ItemErrors(tail));
  }

  lemma {:induction false} WalkMemberList(members: List<Member>, after: List<Token>, seen: set<string>, errs: seq<Error>)
    ensures WalkMembers(MemberTokens(members, Cons(Delim('}'), after)), seen, errs) ==
            (after, JoinErrors(errs + MemberErrors(members, seen)))
    decreases members
  {
    match members
    case Nil => AppendAssoc(errs, [], None, []);
    case Cons(m, tail) =>
      var own := OwnErrors(m.key, seen);
      WalkValue(m.value, MemberTokens(tail, Cons(Delim('}'), after)));
      WalkMemberList(tail, after, seen + {m.key}, Append(errs + own, Errors(m.value)));
      AppendAssoc(errs, own, Errors(m.value), MemberErrors(tail, seen + {m.key}));
  }

  // ------------------------------------------- nil exactly without duplicates

  function Keys(members: List<Member>): seq<string> {
    match members
    case Nil => []
    case Cons(m, rest) => [m.key] + Keys(rest)
  }

  predicate Distinct(keys: seq<string>) {
    forall i, j :: 0 <= i < j < |keys| ==> keys[i] != keys[j]
  }

  // No object of v, at any depth, repeats a key.
  predicate NoDuplicates(v: Json) {
    match v
    case Scalar(_) => true
    case Arr(items) => NoDuplicatesInItems(items)
    case Obj(members) => Distinct(Keys(members)) && NoDuplicatesInMembers(members)
  }

  predicate NoDuplicatesInItems(items: List<Json>) {
    items.Cons? ==> NoDuplicates(items.head) && NoDuplicatesInItems(items.tail)
  }

  predicate NoDuplicatesInMembers(members: List<Member>) {
    members.Cons? ==> NoDuplicates(members.head.value) && NoDuplicatesInMembers(members.tail)
  }

  lemma DistinctCons(key: string, keys: seq<string>)
    ensures Distinct([key] + keys) <==> key !in keys && Distinct(keys)
  {
    var all := [key] + keys;
    if Distinct(all) {
      forall i | 0 <= i < |keys|
        ensures keys[i] != key
      {
        assert all[0] != all[i + 1];
      }
      forall i, j | 0 <= i < j < |keys|
        ensures keys[i] != keys[j]
      {
        assert all[i + 1] != all[j + 1];
      }
    }
  }

  lemma {:induction false} NoErrorsIff(v: Json)
    ensures Errors(v) == None <==> NoDuplicates(v)
    decreases v
  {
    match v
    case Scalar(_) =>
    case Arr(items) => NoItemErrorsIff(items);
    case Obj(members) => NoMemberErrorsIff(members, {});
  }

  lemma {:induction false} NoItemErrorsIff(items: List<Json>)
    ensures ItemErrors(items) == [] <==> NoDuplicatesInItems(items)
    decreases items
  {
    if items.Cons? {
      NoErrorsIff(items.head);
      NoItemErrorsIff(items.tail);
    }
  }

  lemma {:induction false} NoMemberErrorsIff(members: List<Member>, seen: set<string>)
    ensures MemberErrors(members, seen) == [] <==>
            && NoDuplicatesInMembers(members)
            && Distinct(Keys(members))
            && forall k :: k in Keys(members) ==> k !in seen
    decreases members
  {
    match members
    case Nil =>
    case Cons(m, rest) =>
      NoErrorsIff(m.value);
      NoMemberErrorsIff(rest, seen + {m.key});
      DistinctCons(m.key, Keys(rest));
      assert forall k :: k in Keys(members) <==> k == m.key || k in Keys(rest);
  }

  // ---------------------------------------- how many, and which, duplicates

  // The keys of the leaf errors, through every join.
  function Leaves(e: Error): multiset<string> {
    match e
    case Duplicate(key) => multiset{key}
    case Joined(errs) => LeavesOf(errs)
    case _ => multiset{}
  }

  function LeavesOf(errs: seq<Error>): multiset<string> {
    if errs == [] then multiset{} else Leaves(errs[0]) + LeavesOf(errs[1..])
  }

  function OutcomeLeaves(e: Outcome): multiset<string> {
    if e.Some? then Leaves(e.value) else multiset{}
  }

  // Over all objects of v, each key as many times as it occurs beyond the first.
  function Excess(v: Json): multiset<string> {
    match v
    case Scalar(_) => multiset{}
    case Arr(items) => ItemExcess(items)
    case Obj(members) => Repeats(Keys(members), {}) + MemberExcess(members)
  }

  function ItemExcess(items: List<Json>): multiset<string> {
    match items
    case Nil => multiset{}
    case Cons(x, rest) => Excess(x) + ItemExcess(rest)
  }

  function MemberExcess(members: List<Member>): multiset<string> {
    match members
    case Nil => multiset{}
    case Cons(m, rest) => Excess(m.value) + MemberExcess(rest)
  }

  // The occurrences beyond the first; a key in seen has occurred already.
  function Repeats(keys: seq<string>, seen: set<string>): multiset<string> {
    multiset(keys) - multiset((set k | k in keys) - seen)
  }

  lemma RepeatsCons(key: string, keys: seq<string>, seen: set<string>)
    ensures Repeats([key] + keys, seen) ==
            (if key in seen then multiset{key} else multiset{}) + Repeats(keys, seen + {key})
  {
    var all := [key] + keys;
    assert multiset(all) == multiset{key} + multiset(keys);
    forall k
      ensures Repeats(all, seen)[k] ==
              ((if key in seen then multiset{key} else multiset{}) + Repeats(keys, seen + {key}))[k]
    {
      assert k in all <==> k == key || k in keys;
    }
  }

  lemma {:induction false} LeavesConcat(a: seq<Error>, b: seq<Error>)
    ensures LeavesOf(a + b) == LeavesOf(a) + LeavesOf(b)
  {
    if a == [] {
      assert a + b == b;
    } else {
      assert (a + b)[1..] == a[1..] + b;
      LeavesConcat(a[1..], b);
    }
  }

  lemma LeavesAppend(e: Outcome)
    ensures LeavesOf(Append([], e)) == OutcomeLeaves(e)
  {
    assert Append([], e)[..] == Append([], e);
  }

  lemma LeavesOfJoin(errs: seq<Error>)
    ensures OutcomeLeaves(JoinErrors(errs)) == LeavesOf(errs)
  {
  }

  lemma OwnLeaves(key: string, seen: set<string>)
    ensures LeavesOf(OwnErrors(key, seen)) == if key in seen then multiset{key} else multiset{}
  {
    if key in seen {
      assert OwnErrors(key, seen)[1..] == [];
    }
  }

  lemma Regroup(a: multiset<string>, b: multiset<string>, c: multiset<string>, d: multiset<string>)
    ensures a + b + (c + d) == (a + c) + (b + d)
  {
  }

  // Every repeated key of every object is reported once per repetition, and
  // nothing else is.
  lemma {:induction false} LeavesAreExcess(v: Json)
    ensures OutcomeLeaves(Errors(v)) == Excess(v)
    decreases v
  {
    match v
    case Scalar(_) =>
    case Arr(items) =>
      ItemLeaves(items);
      LeavesOfJoin(ItemErrors(items));
    case Obj(members) =>
      MemberLeaves(members, {});
      LeavesOfJoin(MemberErrors(members, {}));
  }

  lemma {:induction false} ItemLeaves(items: List<Json>)
    ensures LeavesOf(ItemErrors(items)) == ItemExcess(items)
    decreases items
  {
    if items.Cons? {
      LeavesAreExcess(items.head);
      ItemLeaves(items.tail);
      LeavesConcat(Append([], Errors(items.head)), ItemErrors(items.tail));
      LeavesAppend(Errors(items.head));
    }
  }

  lemma MemberLeavesStep(own: seq<Error>, e: Outcome, more: seq<Error>)
    ensures LeavesOf(own + Append([], e) + more) == LeavesOf(own) + OutcomeLeaves(e) + LeavesOf(more)
  {
    LeavesConcat(own + Append([], e), more);
    LeavesConcat(own, Append([], e));
    LeavesAppend(e);
  }

  lemma {:induction false} MemberLeaves(members: List<Member>, seen: set<string>)
    ensures LeavesOf(MemberErrors(members, seen)) == Repeats(Keys(members), seen) + MemberExcess(members)
    decreases members
  {
    match members
    case Nil =>
    case Cons(m, rest) =>
      var seen' := seen + {m.key};
      LeavesAreExcess(m.value);
      MemberLeaves(rest, seen');
      RepeatsCons(m.key, Keys(rest), seen);
      MemberLeavesStep(OwnErrors(m.key, seen), Errors(m.value), MemberErrors(rest, seen'));
      OwnLeaves(m.key, seen);
      Regroup(if m.key in seen then multiset{m.key} else multiset{},
              Excess(m.value), Repeats(Keys(rest), seen'), MemberExcess(rest));
  }

  // In numbers: members minus distinct keys.
  lemma RepeatsCount(keys: seq<string>)
    ensures |Repeats(keys, {})| == |keys| - |set k | k in keys|
  {
    var distinct := set k | k in keys;
    assert distinct - {} == distinct;
    assert multiset(distinct) <= multiset(keys);
    assert |multiset(distinct)| == |distinct|;
  }

  // ------------------------------------------------- what a decode into maps keeps

  datatype Tree = Leaf(a: Atom) | Sequence(items: List<Tree>) | Mapping(entries: map<string, Tree>)

  // encoding/json: a later member of the same name replaces an earlier one.
  function DecodeLast(v: Json): Tree {
    match v
    case Scalar(a) => Leaf(a)
    case Arr(items) => Sequence(DecodeLastItems(items))
    case Obj(members) => Mapping(DecodeLastMembers(members))
  }

  function DecodeLastItems(items: List<Json>): List<Tree> {
    match items
    case Nil => Nil
    case Cons(x, rest) => Cons(DecodeLast(x), DecodeLastItems(rest))
  }

  function DecodeLastMembers(members: List<Member>): map<string, Tree> {
    match members
    case Nil => map[]
    case Cons(m, rest) => map[m.key := DecodeLast(m.value)] + DecodeLastMembers(rest)
  }

  // A decoder that keeps the first member of each name instead.
  function DecodeFirst(v: Json): Tree {
    match v
    case Scalar(a) => Leaf(a)
    case Arr(items) => Sequence(DecodeFirstItems(items))
    case Obj(members) => Mapping(DecodeFirstMembers(members))
  }

  function DecodeFirstItems(items: List<Json>): List<Tree> {
    match items
    case Nil => Nil
    case Cons(x, rest) => Cons(DecodeFirst(x), DecodeFirstItems(rest))
  }

  function DecodeFirstMembers(members: List<Member>): map<string, Tree> {
    match members
    case Nil => map[]
    case Cons(m, rest) => DecodeFirstMembers(rest)[m.key := DecodeFirst(m.value)]
  }

  // t holds every member of every object of v, and as many entries as members.
  ghost predicate KeepsAll(v: Json, t: Tree) {
    match v
    case Scalar(a) => t == Leaf(a)
    case Arr(items) => t.Sequence? && KeepsItems(items, t.items)
    case Obj(members) => t.Mapping? && |t.entries| == |Keys(members)| && KeepsMembers(members, t.entries)
  }

  ghost predicate KeepsItems(items: List<Json>, ts: List<Tree>) {
    match items
    case Nil => ts == Nil
    case Cons(x, rest) => ts.Cons? && KeepsAll(x, ts.head) && KeepsItems(rest, ts.tail)
  }

  ghost predicate KeepsMembers(members: List<Member>, entries: map<string, Tree>) {
    match members
    case Nil => true
    case Cons(m, rest) =>
      m.key in entries && KeepsAll(m.value, entries[m.key]) && KeepsMembers(rest, entries)
  }

  lemma {:induction false} KeysOfDecodes(members: List<Member>)
    ensures forall k :: k in DecodeLastMembers(members) <==> k in Keys(members)
    ensures forall k :: k in DecodeFirstMembers(members) <==> k in Keys(members)
    decreases members
  {
    if members.Cons? {
      KeysOfDecodes(members.tail);
    }
  }

  lemma {:induction false} SizeIffDistinct(keys: seq<string>, entries: map<string, Tree>)
    requires forall k :: k in entries <==> k in keys
    ensures |entries| <= |keys|
    ensures |entries| == |keys| <==> Distinct(keys)
    decreases |keys|
  {
    if keys == [] {
      assert entries == map[];
    } else {
      var key, rest := keys[0], keys[1..];
      assert keys == [key] + rest;
      DistinctCons(key, rest);
      if key in rest {
        SizeIffDistinct(rest, entries);
      } else {
        SizeIffDistinct(rest, entries - {key});
        assert entries.Keys == (entries - {key}).Keys + {key};
      }
    }
  }

  // Entries under other names do not matter.
  lemma {:induction false} KeepsMembersAgree(members: List<Member>, a: map<string, Tree>, b: map<string, Tree>)
    requires forall k :: k in Keys(members) ==> k in a && k in b && a[k] == b[k]
    requires KeepsMembers(members, a)
    ensures KeepsMembers(members, b)
    decreases members
  {
    match members
    case Nil =>
    case Cons(m, rest) =>
      assert Keys(members)[0] == m.key;
      assert forall k :: k in Keys(rest) ==> k in Keys(members);
      KeepsMembersAgree(rest, a, b);
  }

  // A value without duplicates loses nothing, whichever member wins, and the
  // winner makes no difference.
  lemma {:induction false} NothingLost(v: Json)
    requires NoDuplicates(v)
    ensures DecodeFirst(v) == DecodeLast(v) && KeepsAll(v, DecodeLast(v))
    decreases v
  {
    match v
    case Scalar(_) =>
    case Arr(items) => NoItemLost(items);
    case Obj(members) =>
      NoMemberLost(members);
      KeysOfDecodes(members);
      SizeIffDistinct(Keys(members), DecodeLastMembers(members));
  }

  lemma {:induction false} NoItemLost(items: List<Json>)
    requires NoDuplicatesInItems(items)
    ensures DecodeFirstItems(items) == DecodeLastItems(items) && KeepsItems(items, DecodeLastItems(items))
    decreases items
  {
    if items.Cons? {
      NothingLost(items.head);
      NoItemLost(items.tail);
    }
  }

  lemma {:induction false} NoMemberLost(members: List<Member>)
    requires Distinct(Keys(members)) && NoDuplicatesInMembers(members)
    ensures DecodeFirstMembers(members) == DecodeLastMembers(members)
    ensures KeepsMembers(members, DecodeLastMembers(members))
    decreases members
  {
    match members
    case Nil =>
    case Cons(m, rest) =>
      DistinctCons(m.key, Keys(rest));
      NothingLost(m.value);
      NoMemberLost(rest);
      KeysOfDecodes(rest);
      KeepsMembersAgree(rest, DecodeLastMembers(rest), DecodeLastMembers(members));
  }

  lemma {:induction false} KeptOnlyIf(v: Json)
    requires KeepsAll(v, DecodeLast(v))
    ensures NoDuplicates(v)
    decreases v
  {
    match v
    case Scalar(_) =>
    case Arr(items) => ItemsKeptOnlyIf(items);
    case Obj(members) =>
      KeysOfDecodes(members);
      SizeIffDistinct(Keys(members), DecodeLastMembers(members));
      MembersKeptOnlyIf(members, DecodeLastMembers(members));
  }

  lemma {:induction false} ItemsKeptOnlyIf(items: List<Json>)
    requires KeepsItems(items, DecodeLastItems(items))
    ensures NoDuplicatesInItems(items)
    decreases items
  {
    if items.Cons? {
      KeptOnlyIf(items.head);
      ItemsKeptOnlyIf(items.tail);
    }
  }

  lemma {:induction false} MembersKeptOnlyIf(members: List<Member>, entries: map<string, Tree>)
    requires Distinct(Keys(members)) && KeepsMembers(members, entries)
    requires forall k :: k in DecodeLastMembers(members) ==> k in entries && entries[k] == DecodeLastMembers(members)[k]
    ensures NoDuplicatesInMembers(members)
    decreases members
  {
    match members
    case Nil =>
    case Cons(m, rest) =>
      DistinctCons(m.key, Keys(rest));
      KeysOfDecodes(rest);
      assert m.key in DecodeLastMembers(members);
      KeptOnlyIf(m.value);
      MembersKeptOnlyIf(rest, entries);
  }

  // The last-wins decode keeps every member at every depth exactly when no object
  // repeats a key.
  lemma KeptIff(v: Json)
    ensures KeepsAll(v, DecodeLast(v)) <==> NoDuplicates(v)
  {
    if KeepsAll(v, DecodeLast(v)) {
      KeptOnlyIf(v);
    }
    if NoDuplicates(v) {
      NothingLost(v);
    }
  }
}
