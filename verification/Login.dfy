// S_LOGIN as an object that owns its players: the inner loop over runs of tag 18,
// length prefixes from cached sizes, and merging.
module Login {
  import opened Options
  import opened Varint
  import opened WireFields
  import opened Messages
  import opened MessagesRoundTrip
  import opened Protocol

  /** The values of a list of players. */
  function Views(ps: seq<Player>): (ms: seq<Message>)
    reads ps
    ensures |ms| == |ps| && forall i :: 0 <= i < |ps| ==> ms[i] == ps[i].View()
  {
    if ps == [] then [] else [ps[0].View()] + Views(ps[1..])
  }

  class SLogin {
    var success: bool
    var players: seq<Player>
    var unknown: seq<Field>
    var cachedSize: int

    function View(): (m: Message) reads this, players
      ensures |m.values| == |S_LOGIN|
    {
      Message([Number(if success then 1 else 0), List(Views(players))], unknown)
    }

    constructor ()
      ensures players == [] && View() == Default(S_LOGIN)
    {
      success, players, unknown, cachedSize := false, [], [], 0;
      new;
      assert View().values == Default(S_LOGIN).values;
    }

    /** ParseMessage into a new player at the end of the list; the limit is the player's size, and depth one less. */
    method ParsePlayer(b: seq<byte>, depth: nat) returns (rest: Option<seq<byte>>)
      modifies this`players
      ensures |players| == |old(players)| + 1 && old(players) == players[..|old(players)|]
      ensures fresh(players[|old(players)|])
      ensures ParseField(b, 18, old(View()), S_LOGIN, depth) ==
              match rest case None => None case Some(r) => Some(Parsed(View(), r))
      ensures rest.Some? ==> |rest.value| < |b| && rest.value == b[|b| - |rest.value|..]
    {
      hide ParseField, Parse, TakeDelimited, Views, Default, AppendMessage;
      DelimitedLeavesSuffix(b);
      PlayersField(b, View(), depth);
      ghost var before, ms := View(), Views(players);
      ghost var owned := players;
      var p := new Player();
      players := players + [p];
      var body := TakeDelimited(b);
      if body.None? || depth == 0 { return None; }
      var ok := p.InternalParse(body.value.result, depth - 1);
      if !ok { return None; }
      ViewsAppend(owned, p);
      assert Views(owned) == ms;
      assert View() == AppendMessage(before, 1, p.View()) by { PlayersAppended(before, success, ms, p.View()); }
      return Some(body.value.rest);
    }

    /**
     * A run of players: after each one, if more data is at hand and the next
     * byte is 18, it is taken for the tag of another one at once. `start` is
     * where the first player's size is; `available` is DataAvailable, which
     * may be false although the limit is not reached.
     */
    method ParsePlayers(b: seq<byte>, start: nat, depth: nat, available: nat -> bool) returns (end: Option<nat>)
      requires start <= |b| && forall p: nat :: available(p) ==> p < |b|
      modifies this`players
      ensures Continue(ParseField(b[start..], 18, old(View()), S_LOGIN, depth), S_LOGIN, depth) ==
              match end
              case None => None
              case Some(p) => if p <= |b| then Parse(b[p..], View(), S_LOGIN, depth) else None
      ensures end.Some? ==> start < end.value <= |b|
      ensures old(players) <= players && forall i :: |old(players)| <= i < |players| ==> fresh(players[i])
    {
      hide ParseField, Parse, Views, Continue;
      var p := start;
      while true
        invariant start <= p <= |b|
        invariant Continue(ParseField(b[start..], 18, old(View()), S_LOGIN, depth), S_LOGIN, depth) ==
                  Continue(ParseField(b[p..], 18, View(), S_LOGIN, depth), S_LOGIN, depth)
        invariant old(players) <= players && forall i :: |old(players)| <= i < |players| ==> fresh(players[i])
        decreases |b| - p
      {
        var rest := ParsePlayer(b[p..], depth);
        if rest.None? { ContinueNone(depth); return None; }
        ContinueSome(rest.value, View(), depth);
        assert rest.value == b[|b| - |rest.value|..];
        p := |b| - |rest.value|;
        if !available(p) { return Some(p); }
        if b[p] != 18 { return Some(p); }
        NextPlayer(b, p, View(), depth);
        p := p + 1;
      }
    }

    /** _InternalParse; whatever DataAvailable says, the result is that of taking one tag at a time. */
    method InternalParse(b: seq<byte>, depth: nat, available: nat -> bool) returns (ok: bool)
      requires forall p: nat :: available(p) ==> p < |b|
      modifies this
      ensures ok <==> Parse(b, old(View()), S_LOGIN, depth).Some?
      ensures ok ==> Parse(b, old(View()), S_LOGIN, depth) == Some(View())
    {
      hide Parse, ParseField, TakeTag, TakeVarint, TakeDelimited, ReadBody, Views, Continue;
      var p := 0;
      assert b[0..] == b;
      while p < |b|
        invariant 0 <= p <= |b|
        invariant Parse(b, old(View()), S_LOGIN, depth) == Parse(b[p..], View(), S_LOGIN, depth)
        invariant old(players) <= players && forall i :: |old(players)| <= i < |players| ==> fresh(players[i])
      {
        ParseUnfolds(b[p..], View(), S_LOGIN, depth);
        var t := TakeTag(b[p..]);
        if t.None? { return false; }
        TagLeavesSuffix(b, p);
        var tag, at := t.value.result, |b| - |t.value.rest|;
        if tag == 8 {
          LoginFields(b[at..], tag, View(), depth);
          var v := TakeVarint(b[at..]);
          if v.None? { ContinueNone(depth); return false; }
          VarintLeavesSuffix(b, at);
          ghost var m := View();
          success, p := v.value.result != 0, |b| - |v.value.rest|;
          assert View() == SetValue(m, 0, Number(if success then 1 else 0)) by {
            SuccessSet(m, success, Views(players));
          }
          ContinueSome(b[p..], View(), depth);
        } else if tag == 18 {
          var end := ParsePlayers(b, at, depth, available);
          if end.None? { return false; }
          p := end.value;
        } else {
          if tag == 0 || tag % 8 == END_GROUP { return false; }
          LoginFields(b[at..], tag, View(), depth);
          var f := ReadBody(b[at..], tag, depth);
          if f.None? { ContinueNone(depth); return false; }
          BodyLeavesSuffix(b, at, tag, depth);
          unknown, p := unknown + [f.value.result], |b| - |f.value.rest|;
          ContinueSome(b[p..], View(), depth);
        }
      }
      assert b[p..] == [];
      ParseEnds(View(), S_LOGIN, depth);
      return true;
    }

    /** What GetCachedSize gives for each player. */
    ghost predicate Cached() reads this, players {
      forall i :: 0 <= i < |players| ==> players[i].cachedSize == ToInt32(ByteSize(players[i].View(), PLAYER))
    }

    /** The sizes of the players with their tags, each left in its player's cache. */
    method PlayerSizes() returns (total: nat)
      modifies players`cachedSize
      ensures total == |players| + ListSize(Views(players), PLAYER)
      ensures Cached() && Views(players) == old(Views(players))
    {
      hide ByteSize, ListSize, LengthDelimitedSize, ToInt32, Views;
      ghost var ms := Views(players);
      total := |players|;
      for i := 0 to |players|
        invariant forall k :: 0 <= k < |players| ==> players[k].View() == ms[k]
        invariant forall k :: 0 <= k < i ==> players[k].cachedSize == ToInt32(ByteSize(ms[k], PLAYER))
        invariant total + ListSize(ms[i..], PLAYER) == |ms| + ListSize(ms, PLAYER)
      {
        ListSizeStep(ms, i);
        var n := players[i].ByteSizeLong();
        total := total + LengthDelimitedSize(n);
      }
      assert ms[|ms|..] == [] && Views(players) == ms;
      NoMessages();
    }

    /** ByteSizeLong, which leaves the size of each player in its cache. */
    method ByteSizeLong() returns (total: nat)
      modifies this`cachedSize, players`cachedSize
      ensures total == ByteSize(View(), S_LOGIN) && cachedSize == ToInt32(total)
      ensures Cached() && View() == old(View())
    {
      hide ByteSize, ListSize, ToInt32, FieldsSize, Views;
      total := PlayerSizes();
      NoMessages();
      if success { total := total + 1 + 1; }
      if unknown != [] { total := total + FieldsSize(unknown); }
      cachedSize := ToInt32(total);
      LoginSize(success, Views(players), unknown);
    }

    /** _InternalSerialize: the prefix of each player is its cached size. */
    method InternalSerialize(target: seq<byte>) returns (out: seq<byte>)
      requires Cached() && ValidMessage(View(), S_LOGIN, SIZED)
      ensures out == target + EncodeMessage(View(), S_LOGIN)
    {
      hide EncodeMessage, EncodeList, EncodeFields, ByteSize, ToInt32, ValidMessage;
      ghost var ms := Views(players);
      out := target;
      if success { out := out + (Encode(8) + Encode(1)); }
      ghost var front := out;
      for i := 0 to |players|
        invariant out + EncodeList(ms[i..], PLAYER, 2) == front + EncodeList(ms, PLAYER, 2)
      {
        CachedSizeIsLength(View(), ms, i);
        ListStep(ms, i);
        ghost var before := out;
        out := out + (Encode(18) + Encode(players[i].cachedSize % TWO_32));
        out := players[i].InternalSerialize(out);
        ghost var tail := EncodeList(ms[i + 1..], PLAYER, 2);
        ghost var body := EncodeMessage(ms[i], PLAYER);
        assert out + tail == before + (Encode(18) + (Encode(|body|) + body) + tail);
      }
      assert ms[|ms|..] == [];
      NoMessages();
      assert out + [] == out;
      assert front == target + if success then Encode(8) + Encode(1) else [];
      if unknown != [] { out := out + EncodeFields(unknown); } else { assert out + EncodeFields(unknown) == out; }
      LoginBytes(success, ms, unknown, target);
    }

    method AppendCopy(from: Player)
      modifies this`players
      ensures Views(players) == old(Views(players)) + [from.View()]
      ensures from.View() == old(from.View())
    {
      hide Views;
      var p := new Player();
      p.MergeFrom(from);
      MergeIntoNew(from.View());
      ViewsAppend(players, p);
      players := players + [p];
    }

    /** players_.MergeFrom copies the other list's players to new objects at the end of this one. */
    method CopyPlayers(from: seq<Player>)
      modifies this`players
      ensures Views(players) == old(Views(players)) + Views(from)
    {
      hide Views;
      ghost var ms, mine := Views(from), Views(players);
      assert mine + ms[..0] == mine;
      for i := 0 to |from|
        invariant Views(players) == mine + ms[..i] && Views(from) == ms
      {
        AppendCopy(from[i]);
        assert mine + ms[..i] + [ms[i]] == mine + ms[..i + 1];
      }
      assert ms[..|ms|] == ms;
    }

    method MergeFrom(from: SLogin)
      requires from != this
      modifies this`success, this`players, this`unknown
      ensures View() == Merge(old(View()), from.View())
    {
      hide Views, Merge;
      LoginMerged(View(), from.View(), success, from.success, Views(players), Views(from.players));
      unknown := unknown + from.unknown;
      CopyPlayers(from.players);
      if from.success { success := from.success; }
    }
  }

  lemma LoginMerged(m: Message, from: Message, success: bool, fromSuccess: bool, ms: seq<Message>, fromMs: seq<Message>)
    requires m.values == [Number(if success then 1 else 0), List(ms)]
    requires from.values == [Number(if fromSuccess then 1 else 0), List(fromMs)]
    ensures Merge(m, from) ==
            Message([Number(if fromSuccess then 1 else if success then 1 else 0), List(ms + fromMs)],
                    m.unknown + from.unknown)
  {
    assert Merge(m, from).values == [Number(if fromSuccess then 1 else if success then 1 else 0), List(ms + fromMs)];
  }

  lemma MergeIntoNew(m: Message)
    requires |m.values| == 3 && m.values[0].Number? && m.values[1].Str? && m.values[2].Number?
    ensures Merge(Default(PLAYER), m) == m
  {
    assert Merge(Default(PLAYER), m).values == m.values;
  }

  lemma NoMessages()
    ensures ListSize([], PLAYER) == 0 && EncodeList([], PLAYER, 2) == []
    ensures FieldsSize([]) == 0 && EncodeFields([]) == []
  {}

  lemma ListSizeStep(ms: seq<Message>, i: nat)
    requires i < |ms|
    ensures ListSize(ms[i..], PLAYER) == LengthDelimitedSize(ByteSize(ms[i], PLAYER)) + ListSize(ms[i + 1..], PLAYER)
    ensures ms[0..] == ms
  {
    hide ByteSize;
    assert ms[i..][1..] == ms[i + 1..];
  }

  lemma ListStep(ms: seq<Message>, i: nat)
    requires i < |ms|
    ensures var body := EncodeMessage(ms[i], PLAYER);
            EncodeList(ms[i..], PLAYER, 2) == Encode(18) + (Encode(|body|) + body) + EncodeList(ms[i + 1..], PLAYER, 2)
    ensures ms[0..] == ms
  {
    hide EncodeMessage, Encode;
    assert ms[i..][1..] == ms[i + 1..];
  }

  /** A cached size is the length of what is written, as long as that is within int. */
  lemma CachedSizeIsLength(m: Message, ms: seq<Message>, i: nat)
    requires ValidMessage(m, S_LOGIN, SIZED) && m.values[1] == List(ms) && i < |ms|
    ensures ToInt32(ByteSize(ms[i], PLAYER)) % TWO_32 == |EncodeMessage(ms[i], PLAYER)|
  {
    hide EncodeMessage, ByteSize, ValidMessage, SchemaOk;
    PlayerIsValid(m, ms, i);
    SchemasAreOk();
    ByteSizeIsExact(ms[i], PLAYER);
  }

  lemma PlayerIsValid(m: Message, ms: seq<Message>, i: nat)
    requires ValidMessage(m, S_LOGIN, SIZED) && m.values[1] == List(ms) && i < |ms|
    ensures ValidMessage(ms[i], PLAYER, SIZED) && |EncodeMessage(ms[i], PLAYER)| <= INT_MAX
  {
    hide EncodeMessage;
    assert ValidValue(m.values[1], S_LOGIN[1], SIZED);
    assert AllValid(ms, PLAYER, SIZED);
  }

  lemma LoginSize(success: bool, ms: seq<Message>, unknown: seq<Field>)
    ensures ByteSize(Message([Number(if success then 1 else 0), List(ms)], unknown), S_LOGIN) ==
            (if success then 2 else 0) + (|ms| + ListSize(ms, PLAYER)) + FieldsSize(unknown)
  {
    hide ListSize, FieldsSize;
    var vs := [Number(if success then 1 else 0), List(ms)];
    assert ValuesSize(vs, S_LOGIN, 2) == 0;
    assert ValuesSize(vs, S_LOGIN, 1) == ValueSize(vs[1], S_LOGIN[1]) + ValuesSize(vs, S_LOGIN, 2);
    assert ValuesSize(vs, S_LOGIN, 0) == ValueSize(vs[0], S_LOGIN[0]) + ValuesSize(vs, S_LOGIN, 1);
  }

  lemma LoginBytes(success: bool, ms: seq<Message>, unknown: seq<Field>, target: seq<byte>)
    ensures target + EncodeMessage(Message([Number(if success then 1 else 0), List(ms)], unknown), S_LOGIN) ==
            target + (if success then Encode(8) + Encode(1) else []) + EncodeList(ms, PLAYER, 2) + EncodeFields(unknown)
  {
    hide EncodeList, EncodeFields, Encode;
    var vs := [Number(if success then 1 else 0), List(ms)];
    assert EncodeValues(vs, S_LOGIN, 2) == [];
    assert EncodeValues(vs, S_LOGIN, 1) == EncodeValue(vs[1], S_LOGIN[1], 2) + EncodeValues(vs, S_LOGIN, 2);
    assert EncodeValues(vs, S_LOGIN, 0) == EncodeValue(vs[0], S_LOGIN[0], 1) + EncodeValues(vs, S_LOGIN, 1);
  }

  /** A byte of 18 is the tag of one more player. */
  lemma NextPlayer(b: seq<byte>, p: nat, m: Message, depth: nat)
    requires p < |b| && b[p] == 18 && |m.values| == |S_LOGIN|
    ensures Parse(b[p..], m, S_LOGIN, depth) == Continue(ParseField(b[p + 1..], 18, m, S_LOGIN, depth), S_LOGIN, depth)
  {
    hide ParseField, Parse, Continue;
    TagIsRead(b[p..], 18);
    ParseUnfolds(b[p..], m, S_LOGIN, depth);
    assert b[p..][1..] == b[p + 1..];
  }

  lemma ContinueNone(depth: nat)
    ensures Continue(None, S_LOGIN, depth) == None
  {}

  lemma ContinueSome(rest: seq<byte>, m: Message, depth: nat)
    requires |m.values| == |S_LOGIN|
    ensures Continue(Some(Parsed(m, rest)), S_LOGIN, depth) == Parse(rest, m, S_LOGIN, depth)
  {}

  lemma SuccessSet(m: Message, success: bool, ms: seq<Message>)
    requires |m.values| == 2 && m.values[1] == List(ms)
    ensures SetValue(m, 0, Number(if success then 1 else 0)) ==
              Message([Number(if success then 1 else 0), List(ms)], m.unknown)
  {
    assert SetValue(m, 0, Number(if success then 1 else 0)).values == [Number(if success then 1 else 0), List(ms)];
  }

  lemma TagLeavesSuffix(b: seq<byte>, p: nat)
    requires p <= |b|
    ensures var t := TakeTag(b[p..]); t.Some? ==> |t.value.rest| < |b| - p && t.value.rest == b[|b| - |t.value.rest|..]
  {}

  lemma VarintLeavesSuffix(b: seq<byte>, p: nat)
    requires p <= |b|
    ensures var v := TakeVarint(b[p..]);
            v.Some? ==> |v.value.rest| < |b| - p && v.value.rest == b[|b| - |v.value.rest|..]
  {}

  ghost predicate IsSuffix(rest: seq<byte>, b: seq<byte>) {
    |rest| <= |b| && rest == b[|b| - |rest|..]
  }

  lemma SuffixOfSuffix(c: seq<byte>, a: seq<byte>, b: seq<byte>)
    requires IsSuffix(c, a) && IsSuffix(a, b)
    ensures IsSuffix(c, b)
  {}

  lemma {:induction false} GroupLeavesSuffix(b: seq<byte>, number: nat, depth: nat)
    ensures var g := ReadGroup(b, number, depth); g.Some? ==> IsSuffix(g.value.rest, b)
    decreases |b|, 0
  {
    hide TakeTag, ReadBody, IsSuffix;
    var t := TakeTag(b);
    if t.Some? {
      assert IsSuffix(t.value.rest, b) by { FrontLeavesSuffix(b); }
      BodyIsSuffix(t.value.rest, t.value.result, depth);
      var f := ReadBody(t.value.rest, t.value.result, depth);
      if f.Some? {
        SuffixOfSuffix(f.value.rest, t.value.rest, b);
        GroupLeavesSuffix(f.value.rest, number, depth);
        var g := ReadGroup(f.value.rest, number, depth);
        if g.Some? { SuffixOfSuffix(g.value.rest, f.value.rest, b); }
      }
    }
  }

  lemma FrontLeavesSuffix(b: seq<byte>)
    ensures TakeTag(b).Some? ==> IsSuffix(TakeTag(b).value.rest, b)
    ensures TakeVarint(b).Some? ==> IsSuffix(TakeVarint(b).value.rest, b)
    ensures TakeDelimited(b).Some? ==> IsSuffix(TakeDelimited(b).value.rest, b)
  {
    DelimitedLeavesSuffix(b);
  }

  lemma TakeLeavesSuffix(b: seq<byte>, n: nat)
    ensures Take(b, n).Some? ==> IsSuffix(Take(b, n).value.rest, b)
  {}

  lemma {:induction false} BodyIsSuffix(b: seq<byte>, tag: nat, depth: nat)
    ensures var f := ReadBody(b, tag, depth); f.Some? ==> IsSuffix(f.value.rest, b)
    decreases |b|, 1
  {
    hide TakeVarint, TakeDelimited, ReadGroup, IsSuffix, Take, TakeTag;
    FrontLeavesSuffix(b);
    TakeLeavesSuffix(b, 8);
    TakeLeavesSuffix(b, 4);
    if depth > 0 { GroupLeavesSuffix(b, tag / 8, depth - 1); }
  }

  lemma BodyLeavesSuffix(b: seq<byte>, p: nat, tag: nat, depth: nat)
    requires p <= |b|
    ensures var f := ReadBody(b[p..], tag, depth);
            f.Some? ==> |f.value.rest| <= |b| - p && f.value.rest == b[|b| - |f.value.rest|..]
  {
    hide ReadBody;
    BodyIsSuffix(b[p..], tag, depth);
    var f := ReadBody(b[p..], tag, depth);
    if f.Some? { SuffixOfSuffix(f.value.rest, b[p..], b); }
  }

  /** The other cases of the switch. */
  lemma LoginFields(b: seq<byte>, tag: nat, m: Message, depth: nat)
    requires |m.values| == |S_LOGIN| && tag != 18
    ensures ParseField(b, tag, m, S_LOGIN, depth) ==
            if tag == 8 then
              (match TakeVarint(b)
               case None => None
               case Some(x) => Some(Parsed(SetValue(m, 0, Number(if x.result != 0 then 1 else 0)), x.rest)))
            else
              (match ReadBody(b, tag, depth)
               case None => None
               case Some(x) => Some(Parsed(m.(unknown := m.unknown + [x.result]), x.rest)))
  {
    hide TakeVarint, TakeDelimited, ReadBody;
  }

  lemma DelimitedLeavesSuffix(b: seq<byte>)
    ensures TakeDelimited(b).Some? ==> TakeDelimited(b).value.rest == b[|b| - |TakeDelimited(b).value.rest|..]
  {}

  lemma ViewsAppend(ps: seq<Player>, p: Player)
    ensures Views(ps + [p]) == Views(ps) + [p.View()]
  {}

  lemma PlayersAppended(m: Message, success: bool, ms: seq<Message>, x: Message)
    requires m.values == [Number(if success then 1 else 0), List(ms)]
    ensures AppendMessage(m, 1, x) == Message([Number(if success then 1 else 0), List(ms + [x])], m.unknown)
  {
    assert AppendMessage(m, 1, x).values == [Number(if success then 1 else 0), List(ms + [x])];
  }

  /** The case of tag 18. */
  lemma PlayersField(b: seq<byte>, m: Message, depth: nat)
    requires |m.values| == |S_LOGIN|
    ensures ParseField(b, 18, m, S_LOGIN, depth) ==
            match TakeDelimited(b)
            case None => None
            case Some(x) =>
              if depth == 0 then None
              else
                match Parse(x.result, Default(PLAYER), PLAYER, depth - 1)
                case None => None
                case Some(sub) => Some(Parsed(AppendMessage(m, 1, sub), x.rest))
  {
    hide TakeDelimited, Parse, Default;
    assert KnownTag(S_LOGIN, 1) == 18;
  }
}
