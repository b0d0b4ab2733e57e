// When a message can be read back, said of the message itself: its strings are
// UTF-8, and messages and groups are nested at most 100 levels deep in it.
module Nesting {
  import opened Options
  import opened Varint
  import opened WireFields
  import opened Messages
  import opened MessagesRoundTrip
  import Utf8

  function Larger(a: nat, b: nat): nat {
    if a < b then b else a
  }

  /** How many groups are nested in each other. */
  function FieldDepth(f: Field): nat
    decreases f, 0
  {
    if f.GroupField? then 1 + FieldsDepth(f.fields) else 0
  }

  function FieldsDepth(fs: seq<Field>): nat
    decreases fs, 1
  {
    if fs == [] then 0 else Larger(FieldDepth(fs[0]), FieldsDepth(fs[1..]))
  }

  /** How many messages and groups are nested in each other, below the message itself. */
  function Depth(m: Message): nat
    decreases m, 0
  {
    Larger(ValuesDepth(m.values), FieldsDepth(m.unknown))
  }

  function ValuesDepth(vs: seq<Value>): nat
    decreases vs, 2
  {
    if vs == [] then 0 else Larger(ValueDepth(vs[0]), ValuesDepth(vs[1..]))
  }

  function ValueDepth(v: Value): nat
    decreases v, 1
  {
    if v.List? && v.ms != [] then 1 + ListDepth(v.ms) else 0
  }

  function ListDepth(ms: seq<Message>): nat
    decreases ms, 2
  {
    if ms == [] then 0 else Larger(Depth(ms[0]), ListDepth(ms[1..]))
  }

  /** All strings are UTF-8, those of nested messages included. */
  predicate TextsAreUtf8(m: Message)
    decreases m, 0
  {
    forall j :: 0 <= j < |m.values| ==> TextIsUtf8(m.values[j])
  }

  predicate TextIsUtf8(v: Value)
    decreases v, 1
  {
    match v
    case Number(_) => true
    case Str(s) => Utf8.IsValid(s)
    case List(ms) => forall j :: 0 <= j < |ms| ==> TextsAreUtf8(ms[j])
  }

  /** No unknown fields anywhere. */
  predicate IsKnown(m: Message)
    decreases m
  {
    m.unknown == [] && forall j :: 0 <= j < |m.values| ==> HoldsKnown(m.values[j])
  }

  predicate HoldsKnown(v: Value)
    decreases v
  {
    v.List? ==> forall j :: 0 <= j < |v.ms| ==> IsKnown(v.ms[j])
  }

  // ---------------------------------------------------------------- acceptance

  lemma {:induction false} NestsIff(f: Field, depth: nat)
    ensures Nests(f, depth) <==> FieldDepth(f) <= depth
    decreases f, 0
  {
    if f.GroupField? && depth > 0 { AllNestIff(f.fields, depth - 1); }
  }

  lemma {:induction false} AllNestIff(fs: seq<Field>, depth: nat)
    ensures AllNest(fs, depth) <==> FieldsDepth(fs) <= depth
    decreases fs, 1
  {
    hide Nests, FieldDepth, AllNest;
    if fs == [] {
      NothingNests(depth);
    } else {
      NestsIff(fs[0], depth);
      AllNestIff(fs[1..], depth);
      AllNestParts(fs, depth);
    }
  }

  lemma {:induction false} ListIsAcceptable(ms: seq<Message>, depth: nat)
    requires ms != [] && depth > 0
    ensures AllAcceptable(ms, depth) <==>
              (forall j :: 0 <= j < |ms| ==> TextsAreUtf8(ms[j])) && ListDepth(ms) <= depth - 1
    decreases ms, 2
  {
    hide Acceptable, TextsAreUtf8, Depth;
    AcceptableIff(ms[0], depth - 1);
    AllAcceptableParts(ms, depth);
    if |ms| > 1 { ListIsAcceptable(ms[1..], depth); }
    assert ListDepth(ms) == Larger(Depth(ms[0]), ListDepth(ms[1..]));
    assert forall j :: 0 < j < |ms| ==> ms[j] == ms[1..][j - 1];
  }

  lemma {:induction false} ValueIsAcceptable(v: Value, depth: nat)
    ensures AcceptableValue(v, depth) <==> TextIsUtf8(v) && ValueDepth(v) <= depth
    decreases v, 1
  {
    hide Utf8.IsValid;
    if v.List? && v.ms != [] && depth > 0 { ListIsAcceptable(v.ms, depth); }
  }

  lemma {:induction false} ValuesDepthIff(vs: seq<Value>, depth: nat)
    ensures ValuesDepth(vs) <= depth <==> forall j :: 0 <= j < |vs| ==> ValueDepth(vs[j]) <= depth
    decreases |vs|
  {
    hide ValueDepth;
    if vs != [] {
      ValuesDepthIff(vs[1..], depth);
      assert forall j :: 0 < j < |vs| ==> vs[j] == vs[1..][j - 1];
    }
  }

  /** What the parser accepts: strings that are UTF-8, and no more nesting than the limit. */
  lemma {:induction false} AcceptableIff(m: Message, depth: nat)
    ensures Acceptable(m, depth) <==> TextsAreUtf8(m) && Depth(m) <= depth
    decreases m, 0
  {
    hide AcceptableValue, TextIsUtf8, ValueDepth, FieldsDepth, AllNest;
    forall j | 0 <= j < |m.values|
      ensures AcceptableValue(m.values[j], depth) <==> TextIsUtf8(m.values[j]) && ValueDepth(m.values[j]) <= depth
    {
      ValueIsAcceptable(m.values[j], depth);
    }
    ValuesDepthIff(m.values, depth);
    AllNestIff(m.unknown, depth);
  }

  /** Serializing and parsing gives the message back, if its strings are UTF-8 and it nests at most 100 deep. */
  lemma ReadBackIff(a: Message, sc: Schema)
    requires SchemaOk(sc) && ValidMessage(a, sc, READABLE)
    ensures ParseFromArray(EncodeMessage(a, sc), sc) == if TextsAreUtf8(a) && Depth(a) <= 100 then Some(a) else None
  {
    hide EncodeMessage, ParseFromArray, Acceptable, ValidMessage;
    RoundTrip(a, sc);
    AcceptableIff(a, 100);
  }

  /** And of two messages one after the other the merge of both. */
  lemma BothReadBackIff(a: Message, b: Message, sc: Schema)
    requires SchemaOk(sc) && ValidMessage(a, sc, READABLE) && ValidMessage(b, sc, READABLE)
    ensures ParseFromArray(EncodeMessage(a, sc) + EncodeMessage(b, sc), sc) ==
            if TextsAreUtf8(a) && TextsAreUtf8(b) && Depth(a) <= 100 && Depth(b) <= 100 then Some(Merge(a, b)) else None
  {
    hide EncodeMessage, ParseFromArray, Acceptable, ValidMessage, Merge;
    ConcatenationMerges(a, b, sc);
    AcceptableIff(a, 100);
    AcceptableIff(b, 100);
  }

  // ---------------------------------------------------------- a hundred levels

  /** n groups, each in the one before. */
  function Groups(n: nat): seq<Field> {
    if n == 0 then [] else [GroupField(1, Groups(n - 1))]
  }

  lemma {:induction false} GroupsAreDeep(n: nat)
    ensures FieldsDepth(Groups(n)) == n
    ensures forall i :: 0 <= i < |Groups(n)| ==> ValidField(Groups(n)[i], MAX_SIZE)
  {
    if n > 0 {
      GroupsAreDeep(n - 1);
      assert Groups(n)[1..] == [];
    }
  }

  /** A message of any kind with groups nested in it is accepted up to 100 levels, and refused from 101 on. */
  lemma HundredLevels(sc: Schema, n: nat)
    requires SchemaOk(sc)
    ensures var m := Default(sc).(unknown := Groups(n));
            ParseFromArray(EncodeMessage(m, sc), sc) == if n <= 100 then Some(m) else None
  {
    hide EncodeMessage, ParseFromArray;
    var m := Default(sc).(unknown := Groups(n));
    GroupsAreDeep(n);
    forall i | 0 <= i < |m.unknown| ensures Foreign(m.unknown[i], sc) { GroupIsForeign(m.unknown[i], sc); }
    forall j | 0 <= j < |m.values|
      ensures ValidValue(m.values[j], sc[j], READABLE) && TextIsUtf8(m.values[j]) && ValueDepth(m.values[j]) == 0
    {
      ZeroIsFlat(sc[j]);
    }
    ValuesDepthIff(m.values, 0);
    ReadBackIff(m, sc);
  }

  lemma GroupIsForeign(f: Field, sc: Schema)
    requires f.GroupField?
    ensures Foreign(f, sc)
  {
    forall i | 0 <= i < |sc| ensures TagOf(f) != KnownTag(sc, i) {
      TagParts(f.number, START_GROUP);
      TagParts(i + 1, KindWireType(sc[i]));
    }
  }

  lemma ZeroIsFlat(k: Kind)
    ensures ValidValue(Zero(k), k, READABLE) && TextIsUtf8(Zero(k)) && ValueDepth(Zero(k)) == 0
  {
    EmptyIsValid();
  }
}
