// The packet generator's parser: packet ids in the order of the message lines,
// and the split by name prefix.
module ProtoParser {
  import opened Options

  datatype Packet = Packet(name: string, id: nat)

  /** White space and upper case, as the interpreter's strings have them: of any characters, and of whole strings. */
  datatype Text = Text(isSpace: char -> bool, upper: string -> string)

  function SkipSpaces(text: Text, s: string): string {
    if s != [] && text.isSpace(s[0]) then SkipSpaces(text, s[1..]) else s
  }

  /** The word at the front, up to the next space. */
  function FirstWord(text: Text, s: string): (w: string)
    ensures w <= s && (w != [] <==> s != [] && !text.isSpace(s[0]))
  {
    if s == [] || text.isSpace(s[0]) then [] else [s[0]] + FirstWord(text, s[1..])
  }

  /** line.split()[1], which fails if there is no second word. */
  function SecondWord(text: Text, line: string): Option<string> {
    var first := SkipSpaces(text, line);
    var rest := SkipSpaces(text, first[|FirstWord(text, first)|..]);
    if FirstWord(text, rest) == [] then None else Some(FirstWord(text, rest))
  }

  predicate IsMessageLine(line: string) {
    "message" <= line
  }

  /** The names in message lines, in order; None if one of them has no name. */
  function Names(text: Text, lines: seq<string>): Option<seq<string>> {
    if lines == [] then Some([])
    else if !IsMessageLine(lines[0]) then Names(text, lines[1..])
    else
      match (SecondWord(text, lines[0]), Names(text, lines[1..]))
      case (Some(name), Some(more)) => Some([text.upper(name)] + more)
      case _ => None
  }

  /** Names with one of the prefixes. */
  function Matching(names: seq<string>, a: string, b: string): seq<string> {
    if names == [] then []
    else (if a <= names[0] || b <= names[0] then [names[0]] else []) + Matching(names[1..], a, b)
  }

  function Numbered(names: seq<string>, id: nat): (ps: seq<Packet>)
    ensures |ps| == |names| && forall i :: 0 <= i < |ps| ==> ps[i] == Packet(names[i], id + i)
  {
    if names == [] then [] else [Packet(names[0], id)] + Numbered(names[1..], id + 1)
  }

  /** The packets received, the receiving prefix being tested first. */
  function Received(ps: seq<Packet>, recv: string): seq<Packet> {
    if ps == [] then [] else (if recv <= ps[0].name then [ps[0]] else []) + Received(ps[1..], recv)
  }

  /** The packets sent: those that do not have the receiving prefix. */
  function SentOnly(ps: seq<Packet>, recv: string): seq<Packet> {
    if ps == [] then [] else (if recv <= ps[0].name then [] else [ps[0]]) + SentOnly(ps[1..], recv)
  }

  function Total(names: seq<string>, start: nat, recv: string, send: string): seq<Packet> {
    Numbered(Matching(names, recv, send), start)
  }

  lemma {:induction false} ReceivedAppends(ps: seq<Packet>, p: Packet, recv: string)
    ensures Received(ps + [p], recv) == Received(ps, recv) + if recv <= p.name then [p] else []
    ensures SentOnly(ps + [p], recv) == SentOnly(ps, recv) + if recv <= p.name then [] else [p]
    decreases |ps|
  {
    if ps == [] {
      assert ps + [p] == [p] && [p][1..] == [];
    } else {
      assert (ps + [p])[1..] == ps[1..] + [p];
      ReceivedAppends(ps[1..], p, recv);
    }
  }

  lemma {:induction false} MatchingAppends(names: seq<string>, n: string, a: string, b: string)
    ensures Matching(names + [n], a, b) == Matching(names, a, b) + if a <= n || b <= n then [n] else []
    decreases |names|
  {
    if names == [] {
      assert names + [n] == [n] && [n][1..] == [];
    } else {
      assert (names + [n])[1..] == names[1..] + [n];
      MatchingAppends(names[1..], n, a, b);
    }
  }

  lemma {:induction false} NumberedAppends(names: seq<string>, n: string, id: nat)
    ensures Numbered(names + [n], id) == Numbered(names, id) + [Packet(n, id + |names|)]
  {}

  lemma {:induction false} NamesAppends(text: Text, lines: seq<string>, line: string)
    ensures Names(text, lines + [line]) ==
            match Names(text, lines)
            case None => None
            case Some(ns) =>
              if !IsMessageLine(line) then Some(ns)
              else match SecondWord(text, line) case None => None case Some(w) => Some(ns + [text.upper(w)])
    decreases |lines|
  {
    if lines == [] {
      assert lines + [line] == [line] && [line][1..] == [];
      if SecondWord(text, line).Some? {
        var w := text.upper(SecondWord(text, line).value);
        assert [w] + [] == [] + [w];
      }
    } else {
      hide SecondWord, IsMessageLine;
      assert (lines + [line])[1..] == lines[1..] + [line];
      NamesAppends(text, lines[1..], line);
      if Names(text, lines).Some? && SecondWord(text, line).Some? && IsMessageLine(lines[0]) {
        var head, w := text.upper(SecondWord(text, lines[0]).value), text.upper(SecondWord(text, line).value);
        var more := Names(text, lines[1..]).value;
        assert [head] + (more + [w]) == ([head] + more) + [w];
      }
    }
  }

  lemma {:induction false} MissingNameStays(text: Text, lines: seq<string>, n: nat)
    requires n <= |lines| && Names(text, lines[..n]) == None
    ensures Names(text, lines) == None
    decreases |lines| - n
  {
    if n < |lines| {
      NamesAppends(text, lines[..n], lines[n]);
      assert lines[..n] + [lines[n]] == lines[..n + 1];
      MissingNameStays(text, lines, n + 1);
    } else {
      assert lines[..n] == lines;
    }
  }

  class ProtoParser {
    var recvPkt: seq<Packet>
    var sendPkt: seq<Packet>
    var totalPkt: seq<Packet>
    const startId: nat
    var id: nat
    const recvPrefix: string
    const sendPrefix: string
    const text: Text

    constructor (startId: nat, recvPrefix: string, sendPrefix: string, text: Text)
      ensures recvPkt == [] && sendPkt == [] && totalPkt == [] && id == startId == this.startId
      ensures this.recvPrefix == recvPrefix && this.sendPrefix == sendPrefix
    {
      recvPkt, sendPkt, totalPkt := [], [], [];
      this.startId, id := startId, startId;
      this.recvPrefix, this.sendPrefix, this.text := recvPrefix, sendPrefix, text;
    }

    /** parse_proto on the lines of a file; false stands for the IndexError of a message line without a name. */
    method ParseProto(lines: seq<string>) returns (ok: bool)
      requires recvPkt == [] && sendPkt == [] && totalPkt == [] && id == startId
      modifies this`recvPkt, this`sendPkt, this`totalPkt, this`id
      ensures ok <==> Names(text, lines).Some?
      ensures ok ==> totalPkt == Total(Names(text, lines).value, startId, recvPrefix, sendPrefix)
      ensures ok ==> recvPkt == Received(totalPkt, recvPrefix) && sendPkt == SentOnly(totalPkt, recvPrefix)
      ensures ok ==> id == startId + |totalPkt|
    {
      hide IsMessageLine, SecondWord, Names, Matching, Numbered, Received, SentOnly;
      Nothing(text, startId, recvPrefix, sendPrefix);
      for i := 0 to |lines|
        invariant Names(text, lines[..i]).Some?
        invariant totalPkt == Total(Names(text, lines[..i]).value, startId, recvPrefix, sendPrefix)
        invariant recvPkt == Received(totalPkt, recvPrefix) && sendPkt == SentOnly(totalPkt, recvPrefix)
        invariant id == startId + |totalPkt|
      {
        var line := lines[i];
        ghost var names := Names(text, lines[..i]).value;
        NamesAppends(text, lines[..i], line);
        assert lines[..i] + [line] == lines[..i + 1];
        if !IsMessageLine(line) { continue; }
        var word := SecondWord(text, line);
        if word.None? {
          MissingNameStays(text, lines, i + 1);
          return false;
        }
        var name := text.upper(word.value);
        MatchingAppends(names, name, recvPrefix, sendPrefix);
        var packet := Packet(name, id);
        if recvPrefix <= name {
          recvPkt := recvPkt + [packet];
        } else if sendPrefix <= name {
          sendPkt := sendPkt + [packet];
        } else {
          assert Matching(names, recvPrefix, sendPrefix) + [] == Matching(names, recvPrefix, sendPrefix);
          continue;
        }
        ReceivedAppends(totalPkt, packet, recvPrefix);
        NumberedAppends(Matching(names, recvPrefix, sendPrefix), name, startId);
        totalPkt := totalPkt + [packet];
        id := id + 1;
      }
      assert lines[..|lines|] == lines;
      return true;
    }
  }

  lemma Nothing(text: Text, start: nat, a: string, b: string)
    ensures Names(text, []) == Some([]) && Total([], start, a, b) == [] && Received([], a) == []
    ensures SentOnly([], a) == []
  {}

  // ---------------------------------------------------------------- properties

  lemma {:induction false} MatchingIsSymmetric(names: seq<string>, a: string, b: string)
    ensures Matching(names, a, b) == Matching(names, b, a)
    decreases |names|
  {
    if names != [] { MatchingIsSymmetric(names[1..], a, b); }
  }

  lemma {:induction false} SplitsAreDual(ps: seq<Packet>, a: string, b: string)
    requires forall i :: 0 <= i < |ps| ==> a <= ps[i].name || b <= ps[i].name
    ensures |Received(ps, a)| >= |SentOnly(ps, b)|
    ensures Received(ps, a) == SentOnly(ps, b) <==> forall i :: 0 <= i < |ps| ==> !(a <= ps[i].name && b <= ps[i].name)
    ensures |Received(ps, a)| == |SentOnly(ps, b)| ==> Received(ps, a) == SentOnly(ps, b)
    decreases |ps|
  {
    if ps != [] {
      SplitsAreDual(ps[1..], a, b);
      assert forall i :: 0 < i < |ps| ==> ps[i] == ps[1..][i - 1];
    }
  }

  lemma {:induction false} MatchingMatch(names: seq<string>, a: string, b: string)
    ensures forall i :: 0 <= i < |Matching(names, a, b)| ==>
              a <= Matching(names, a, b)[i] || b <= Matching(names, a, b)[i]
    decreases |names|
  {
    if names != [] { MatchingMatch(names[1..], a, b); }
  }

  /** The packets are the names with one of the prefixes; they are received with the first, sent without it. */
  lemma {:induction false} ListsAreByPrefix(names: seq<string>, ps: seq<Packet>, a: string, b: string)
    ensures forall n :: n in Matching(names, a, b) <==> n in names && (a <= n || b <= n)
    ensures forall p :: p in Received(ps, a) <==> p in ps && a <= p.name
    ensures forall p :: p in SentOnly(ps, a) <==> p in ps && !(a <= p.name)
    decreases |names| + |ps|
  {
    if names != [] {
      ListsAreByPrefix(names[1..], ps, a, b);
      assert names == [names[0]] + names[1..];
    } else if ps != [] {
      ListsAreByPrefix(names, ps[1..], a, b);
      assert ps == [ps[0]] + ps[1..];
    }
  }

  /**
   * Two runs over the same file with the prefixes swapped number the same
   * packets with the same consecutive ids. What one receives is what the
   * other sends, if and only if no name has both prefixes.
   */
  lemma SwappedRunsAgree(names: seq<string>, start: nat, a: string, b: string)
    ensures var total := Total(names, start, a, b);
            && Total(names, start, b, a) == total
            && (forall i :: 0 <= i < |total| ==> total[i].id == start + i)
            && (Received(total, a) == SentOnly(total, b) && SentOnly(total, a) == Received(total, b) <==>
                forall i :: 0 <= i < |total| ==> !(a <= total[i].name && b <= total[i].name))
  {
    MatchingIsSymmetric(names, a, b);
    MatchingMatch(names, a, b);
    var total := Total(names, start, a, b);
    SplitsAreDual(total, a, b);
    SplitsAreDual(total, b, a);
  }

  // ------------------------------------------------------------- Protocol.proto

  /** The lines that matter. */
  function MessageLines(lines: seq<string>): seq<string> {
    if lines == [] then []
    else (if IsMessageLine(lines[0]) then [lines[0]] else []) + MessageLines(lines[1..])
  }

  lemma {:induction false} OnlyMessageLinesMatter(text: Text, lines: seq<string>)
    ensures Names(text, lines) == Names(text, MessageLines(lines))
    decreases |lines|
  {
    hide SecondWord;
    if lines != [] {
      OnlyMessageLinesMatter(text, lines[1..]);
      if IsMessageLine(lines[0]) {
        assert MessageLines(lines)[1..] == MessageLines(lines[1..]);
      } else {
        assert MessageLines(lines) == MessageLines(lines[1..]);
      }
    }
  }

  predicate IsPlainName(text: Text, name: string) {
    name != [] && (forall i :: 0 <= i < |name| ==> !text.isSpace(name[i])) && text.upper(name) == name
  }

  /** A name of ASCII upper-case letters and underscores. */
  predicate IsUpperName(name: string) {
    forall i :: 0 <= i < |name| ==> 'A' <= name[i] <= 'Z' || name[i] == '_'
  }

  /** What the Unicode properties say of blanks, line ends, ASCII letters and the underscore. */
  ghost predicate IsUnicode(text: Text) {
    && text.isSpace(' ') && text.isSpace('\n')
    && (forall c :: 'a' <= c <= 'z' || 'A' <= c <= 'Z' || c == '_' ==> !text.isSpace(c))
    && (forall name :: IsUpperName(name) ==> text.upper(name) == name)
  }

  lemma {:induction false} FirstWordOf(text: Text, word: string, rest: string)
    requires forall i :: 0 <= i < |word| ==> !text.isSpace(word[i])
    requires rest == [] || text.isSpace(rest[0])
    ensures FirstWord(text, word + rest) == word
    decreases |word|
  {
    if word == [] {
      assert word + rest == rest;
    } else {
      assert (word + rest)[1..] == word[1..] + rest;
      FirstWordOf(text, word[1..], rest);
    }
  }

  predicate IsWord(text: Text, word: string) {
    word != [] && forall i :: 0 <= i < |word| ==> !text.isSpace(word[i])
  }

  /** Two words with a blank between them and a line end behind. */
  lemma SecondOfTwo(text: Text, first: string, second: string)
    requires text.isSpace(' ') && text.isSpace('\n') && IsWord(text, first) && IsWord(text, second)
    ensures SecondWord(text, first + (" " + (second + "\n"))) == Some(second)
  {
    var end := second + "\n";
    var rest := " " + end;
    var line := first + rest;
    assert line[0] == first[0] && end[0] == second[0];
    assert SkipSpaces(text, line) == line;
    FirstWordOf(text, first, rest);
    assert line[|first|..] == rest;
    assert rest[1..] == end;
    assert SkipSpaces(text, end) == end;
    assert SkipSpaces(text, rest) == end;
    FirstWordOf(text, second, "\n");
  }

  lemma NameOfLine(text: Text, name: string)
    requires IsPlainName(text, name) && IsUnicode(text)
    ensures IsMessageLine("message " + name + "\n")
    ensures SecondWord(text, "message " + name + "\n") == Some(name) && text.upper(name) == name
  {
    hide SecondWord;
    var line, word := "message " + name + "\n", "message";
    assert line == word + (" " + (name + "\n"));
    assert IsWord(text, word) by { MessageIsWord(text); }
    SecondOfTwo(text, word, name);
  }

  lemma MessageIsWord(text: Text)
    requires IsUnicode(text)
    ensures IsWord(text, "message")
  {
    var word := "message";
    assert forall i :: 0 <= i < |word| ==> 'a' <= word[i] <= 'z';
  }

  lemma {:induction false} NamesOfLines(text: Text, names: seq<string>, lines: seq<string>)
    requires |lines| == |names| && IsUnicode(text)
    requires forall i :: 0 <= i < |names| ==> IsPlainName(text, names[i]) && lines[i] == "message " + names[i] + "\n"
    ensures Names(text, lines) == Some(names)
    decreases |names|
  {
    hide SecondWord, IsMessageLine, IsPlainName;
    if names != [] {
      NameOfLine(text, names[0]);
      NamesOfLines(text, names[1..], lines[1..]);
      assert [names[0]] + names[1..] == names;
    }
  }
}
