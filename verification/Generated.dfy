// The two generated headers: the ids and the split between the sides are what the
// generator gives for Protocol.proto with the prefixes one way and the other.
module Generated {
  import opened Options
  import ProtoParser
  import opened Packets

  const START_ID: nat := 1000

  function NameOf(p: PacketType): string {
    match p
    case C_LOGIN => "C_LOGIN"
    case S_LOGIN => "S_LOGIN"
    case C_ENTER_GAME => "C_ENTER_GAME"
    case S_ENTER_GAME => "S_ENTER_GAME"
    case C_CHAT => "C_CHAT"
    case S_CHAT => "S_CHAT"
  }

  const IN_ORDER: seq<PacketType> := [C_LOGIN, S_LOGIN, C_ENTER_GAME, S_ENTER_GAME, C_CHAT, S_CHAT]

  function NamesOf(ps: seq<PacketType>): seq<string> {
    if ps == [] then [] else [NameOf(ps[0])] + NamesOf(ps[1..])
  }

  /** A file whose message lines are those of Protocol.proto, in that order. */
  predicate IsProtocolFile(lines: seq<string>) {
    var ls := ProtoParser.MessageLines(lines);
    |ls| == |IN_ORDER| && forall i :: 0 <= i < |ls| ==> ls[i] == "message " + NameOf(IN_ORDER[i]) + "\n"
  }

  function Prefix(s: Side): string {
    if s.Server? then "C_" else "S_"
  }

  /** The packet list of the generator run for a side, which receives what has its own prefix. */
  function Run(text: ProtoParser.Text, lines: seq<string>, s: Side): seq<ProtoParser.Packet>
    requires ProtoParser.Names(text, lines).Some?
  {
    ProtoParser.Total(ProtoParser.Names(text, lines).value, START_ID, Prefix(s), Prefix(Other(s)))
  }

  lemma NamesAreUpper(p: PacketType)
    ensures NameOf(p) != [] && ProtoParser.IsUpperName(NameOf(p))
  {}

  lemma NamesArePlain(text: ProtoParser.Text, p: PacketType)
    requires ProtoParser.IsUnicode(text)
    ensures ProtoParser.IsPlainName(text, NameOf(p))
  {
    hide NameOf;
    NamesAreUpper(p);
  }

  /** Exactly the server's packets have the prefix C_, and the client's S_. */
  lemma PrefixesDecide(s: Side, p: PacketType)
    ensures Prefix(s) <= NameOf(p) <==> Handles(s, p)
  {
    assert NameOf(p)[..2] == if Handles(Server, p) then "C_" else "S_";
    assert NameOf(p)[0] == if Handles(Server, p) then 'C' else 'S';
    assert Prefix(s)[0] == if s.Server? then 'C' else 'S';
  }

  lemma {:induction false} AllNamesMatch(ps: seq<PacketType>, s: Side)
    ensures ProtoParser.Matching(NamesOf(ps), Prefix(s), Prefix(Other(s))) == NamesOf(ps)
    ensures |NamesOf(ps)| == |ps| && forall i :: 0 <= i < |ps| ==> NamesOf(ps)[i] == NameOf(ps[i])
    decreases |ps|
  {
    hide NameOf, Prefix;
    if ps != [] {
      AllNamesMatch(ps[1..], s);
      PrefixesDecide(s, ps[0]);
      PrefixesDecide(Other(s), ps[0]);
      assert NamesOf(ps)[1..] == NamesOf(ps[1..]);
      assert Handles(s, ps[0]) || Handles(Other(s), ps[0]);
    }
  }

  /** Both runs give every message the id of the headers' enum; and a packet is received by the side that handles it. */
  lemma IdsAreGenerated(text: ProtoParser.Text, lines: seq<string>, s: Side)
    requires IsProtocolFile(lines) && ProtoParser.IsUnicode(text)
    ensures ProtoParser.Names(text, lines) == Some(NamesOf(IN_ORDER))
    ensures |Run(text, lines, s)| == |IN_ORDER|
    ensures forall i :: 0 <= i < |IN_ORDER| ==>
              Run(text, lines, s)[i] == ProtoParser.Packet(NameOf(IN_ORDER[i]), Id(IN_ORDER[i]))
    ensures forall i :: 0 <= i < |IN_ORDER| ==>
              (Prefix(s) <= Run(text, lines, s)[i].name <==> Handles(s, IN_ORDER[i]))
  {
    hide ProtoParser.Names, ProtoParser.MessageLines, ProtoParser.Matching, ProtoParser.IsPlainName, NameOf, Prefix,
         NamesOf;
    AllNamesMatch(IN_ORDER, s);
    forall i | 0 <= i < |IN_ORDER|
      ensures ProtoParser.IsPlainName(text, NamesOf(IN_ORDER)[i])
    {
      NamesArePlain(text, IN_ORDER[i]);
    }
    ProtoParser.OnlyMessageLinesMatter(text, lines);
    ProtoParser.NamesOfLines(text, NamesOf(IN_ORDER), ProtoParser.MessageLines(lines));
    forall i | 0 <= i < |IN_ORDER|
      ensures Run(text, lines, s)[i] == ProtoParser.Packet(NameOf(IN_ORDER[i]), Id(IN_ORDER[i]))
      ensures Prefix(s) <= Run(text, lines, s)[i].name <==> Handles(s, IN_ORDER[i])
    {
      PrefixesDecide(s, IN_ORDER[i]);
      assert Id(IN_ORDER[i]) == START_ID + i;
    }
  }
}
