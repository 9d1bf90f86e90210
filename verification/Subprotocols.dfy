/** The negotiation of a subprotocol in the opening handshake (section 4.1 of RFC 6455). */
module Subprotocols {

  const SEPARATORS := "()<>@,;:\\\"/[]?={} \t"

  predicate IsSeparator(c: char) { c in SEPARATORS }

  predicate IsNameChar(c: char) { 0x21 as char <= c <= 0x7E as char && !IsSeparator(c) }

  /** These are the characters of a token of HTTP. */
  lemma {:induction false} NameCharTable(c: char)
    ensures IsNameChar(c) <==> '0' <= c <= '9' || 'A' <= c <= 'Z' || 'a' <= c <= 'z' || c in "!#$%&'*+-.^_`|~"
  {
  }

  predicate IsValidName(p: string) {
    forall i :: 0 <= i < |p| ==> IsNameChar(p[i])
  }

  predicate AllValid(ps: seq<string>) {
    forall i :: 0 <= i < |ps| ==> IsValidName(ps[i])
  }

  predicate NoneEmpty(ps: seq<string>) {
    forall i :: 0 <= i < |ps| ==> ps[i] != ""
  }

  // ----- the client's request -----

  /** The names that may be sent, in order. */
  function ValidOnly(ps: seq<string>): seq<string> {
    if ps == [] then []
    else ValidOnly(ps[..|ps| - 1]) + if IsValidName(ps[|ps| - 1]) then [ps[|ps| - 1]] else []
  }

  method ValidProtocols(protocols: seq<string>) returns (valid: seq<string>)
    ensures valid == ValidOnly(protocols) && AllValid(valid)
    ensures forall p :: p in valid ==> p in protocols
  {
    valid := [];
    for i := 0 to |protocols|
      invariant valid == ValidOnly(protocols[..i]) && AllValid(valid)
      invariant forall p :: p in valid ==> p in protocols
    {
      assert protocols[..i + 1][..i] == protocols[..i];
      if IsValidName(protocols[i]) {
        valid := valid + [protocols[i]];
      }
    }
    assert protocols[..|protocols|] == protocols;
  }

  lemma {:induction false} ValidOnlyFacts(ps: seq<string>)
    ensures AllValid(ValidOnly(ps)) && (NoneEmpty(ps) ==> NoneEmpty(ValidOnly(ps)))
    ensures forall p :: p in ValidOnly(ps) ==> p in ps
  {
    if ps != [] {
      ValidOnlyFacts(ps[..|ps| - 1]);
    }
  }

  // What ValidOnly computes, said by positions.

  predicate Increasing(ks: seq<nat>) {
    forall i, j :: 0 <= i < j < |ks| ==> ks[i] < ks[j]
  }

  /** The elements of picked are those of ps at the positions ks, in order, and every other position is left out. */
  predicate PickedAt(picked: seq<string>, ps: seq<string>, keep: string -> bool, ks: seq<nat>) {
    && Increasing(ks) && |ks| == |picked|
    && (forall i :: 0 <= i < |ks| ==> ks[i] < |ps| && picked[i] == ps[ks[i]] && keep(ps[ks[i]]))
    && forall k :: 0 <= k < |ps| && keep(ps[k]) ==> k in ks
  }

  lemma {:induction false} PickedNext(picked: seq<string>, ps: seq<string>, keep: string -> bool, ks: seq<nat>, p: string)
    requires PickedAt(picked, ps, keep, ks)
    ensures if keep(p) then PickedAt(picked + [p], ps + [p], keep, ks + [|ps|]) else PickedAt(picked, ps + [p], keep, ks)
  {
    var all, more := ps + [p], ks + [|ps|];
    forall k | 0 <= k < |all| && keep(all[k]) ensures k in if keep(p) then more else ks {
      assert k < |ps| ==> all[k] == ps[k] && k in ks;
      assert more[|ks|] == |ps|;
      assert k in ks ==> k in more;
    }
  }

  /** Exactly the valid names, each in its place. */
  lemma {:induction false} ValidOnlyAt(ps: seq<string>) returns (ks: seq<nat>)
    ensures PickedAt(ValidOnly(ps), ps, IsValidName, ks)
  {
    if ps == [] {
      ks := [];
    } else {
      var before, p := ps[..|ps| - 1], ps[|ps| - 1];
      var picked := ValidOnlyAt(before);
      PickedNext(ValidOnly(before), before, IsValidName, picked, p);
      assert ps == before + [p];
      if IsValidName(p) {
        ks := picked + [|before|];
        assert ValidOnly(ps) == ValidOnly(before) + [p];
      } else {
        ks := picked;
        assert ValidOnly(ps) == ValidOnly(before);
      }
    }
  }

  function Joined(ps: seq<string>): string {
    if ps == [] then "" else if |ps| == 1 then ps[0] else ps[0] + ", " + Joined(ps[1..])
  }

  // ----- lists in header lines -----

  predicate IsSpace(c: char) { c in " \t\n\r" || c == 0x0B as char || c == 0x0C as char }

  function TrimmedLeft(s: string): string {
    if s != "" && IsSpace(s[0]) then TrimmedLeft(s[1..]) else s
  }

  function TrimmedRight(s: string): string {
    if s != "" && IsSpace(s[|s| - 1]) then TrimmedRight(s[..|s| - 1]) else s
  }

  function Trimmed(s: string): string {
    TrimmedRight(TrimmedLeft(s))
  }

  predicate AllSpace(s: string) {
    forall i :: 0 <= i < |s| ==> IsSpace(s[i])
  }

  lemma {:induction false} TrimmedLeftParts(s: string) returns (front: string)
    ensures s == front + TrimmedLeft(s) && AllSpace(front)
    ensures TrimmedLeft(s) != "" ==> !IsSpace(TrimmedLeft(s)[0])
    decreases |s|
  {
    front := "";
    if s != "" && IsSpace(s[0]) {
      var more := TrimmedLeftParts(s[1..]);
      front := [s[0]] + more;
    }
  }

  lemma {:induction false} TrimmedRightParts(s: string) returns (back: string)
    ensures s == TrimmedRight(s) + back && AllSpace(back)
    ensures TrimmedRight(s) != "" ==> !IsSpace(TrimmedRight(s)[|TrimmedRight(s)| - 1]) && TrimmedRight(s)[0] == s[0]
    decreases |s|
  {
    back := "";
    if s != "" && IsSpace(s[|s| - 1]) {
      var more := TrimmedRightParts(s[..|s| - 1]);
      back := more + [s[|s| - 1]];
    }
  }

  /** Trimming takes away white space at both ends, all of it, and nothing else. */
  lemma {:induction false} TrimmedParts(s: string) returns (front: string, back: string)
    ensures s == front + Trimmed(s) + back && AllSpace(front) && AllSpace(back)
    ensures Trimmed(s) != "" ==> !IsSpace(Trimmed(s)[0]) && !IsSpace(Trimmed(s)[|Trimmed(s)| - 1])
  {
    front := TrimmedLeftParts(s);
    back := TrimmedRightParts(TrimmedLeft(s));
  }

  /** The parts between the commas that are not empty; token is the part under way. */
  function Tokens(line: string, token: string): seq<string> {
    if line == "" then Part(token)
    else if line[0] == ',' then Part(token) + Tokens(line[1..], "")
    else Tokens(line[1..], token + [line[0]])
  }

  function Part(token: string): seq<string> {
    if token == "" then [] else [token]
  }

  // What Tokens computes, said from the other side: any sequence of parts without a comma, joined by commas.

  predicate CommaFree(parts: seq<string>) {
    forall i :: 0 <= i < |parts| ==> ',' !in parts[i]
  }

  function CommaJoined(parts: seq<string>): string {
    if parts == [] then "" else if |parts| == 1 then parts[0] else parts[0] + "," + CommaJoined(parts[1..])
  }

  function NotEmpty(parts: seq<string>): seq<string> {
    if parts == [] then [] else Part(parts[0]) + NotEmpty(parts[1..])
  }

  /** Of the parts between the commas, those that are not empty, in order. */
  lemma {:induction false} TokensOfParts(parts: seq<string>)
    requires CommaFree(parts)
    ensures Tokens(CommaJoined(parts), "") == NotEmpty(parts)
    decreases |parts|
  {
    if parts != [] {
      var first, rest := parts[0], CommaJoined(parts[1..]);
      assert "" + first == first;
      if |parts| == 1 {
        assert first + "" == first && NotEmpty(parts[1..]) == [];
        TokensThrough(first, "", "");
      } else {
        assert first + "," + rest == first + ("," + rest) && ("," + rest)[1..] == rest;
        TokensThrough(first, "," + rest, "");
        TokensOfParts(parts[1..]);
      }
    }
  }

  /** Every line is such a sequence of parts. */
  lemma {:induction false} PartsOf(line: string) returns (parts: seq<string>)
    ensures CommaFree(parts) && parts != [] && CommaJoined(parts) == line
    decreases |line|
  {
    if line == "" {
      parts := [""];
    } else {
      var more := PartsOf(line[1..]);
      if line[0] == ',' {
        parts := [""] + more;
        assert parts[1..] == more && "" + "," + line[1..] == line;
      } else {
        parts := [[line[0]] + more[0]] + more[1..];
        assert parts[1..] == more[1..];
        assert |more| > 1 ==>
          [line[0]] + (more[0] + "," + CommaJoined(more[1..])) == parts[0] + "," + CommaJoined(parts[1..]);
      }
    }
  }

  /** So on every line: no token is empty or contains a comma, and they are the parts of the line, in order. */
  lemma {:induction false} TokensOfLine(line: string) returns (parts: seq<string>)
    ensures CommaFree(parts) && CommaJoined(parts) == line && Tokens(line, "") == NotEmpty(parts)
    ensures CommaFree(Tokens(line, "")) && NoneEmpty(Tokens(line, ""))
  {
    parts := PartsOf(line);
    TokensOfParts(parts);
    NotEmptyFacts(parts);
  }

  lemma {:induction false} NotEmptyFacts(parts: seq<string>)
    requires CommaFree(parts)
    ensures CommaFree(NotEmpty(parts)) && NoneEmpty(NotEmpty(parts))
    decreases |parts|
  {
    if parts != [] {
      NotEmptyFacts(parts[1..]);
    }
  }

  function AllTrimmed(tokens: seq<string>): seq<string> {
    if tokens == [] then [] else AllTrimmed(tokens[..|tokens| - 1]) + [Trimmed(tokens[|tokens| - 1])]
  }

  /** The names of a header line, as the server takes them. */
  function NamesIn(line: string): seq<string> {
    AllTrimmed(Tokens(line, ""))
  }

  method AppendCommaSeparatedLineToList(list: seq<string>, line: string) returns (r: seq<string>)
    ensures r == list + NamesIn(line)
  {
    var tokens := Tokens(line, "");
    r := list;
    for i := 0 to |tokens|
      invariant r == list + AllTrimmed(tokens[..i])
    {
      assert tokens[..i + 1][..i] == tokens[..i];
      r := r + [Trimmed(tokens[i])];
    }
    assert tokens[..|tokens|] == tokens;
  }

  /** What the client asks for: its options, and names of a raw header that are not empty and not among the options. */
  function Extra(options: seq<string>, names: seq<string>): seq<string> {
    if names == [] then []
    else
      var p := names[|names| - 1];
      Extra(options, names[..|names| - 1]) + if p != "" && p !in options then [p] else []
  }

  lemma {:induction false} TrimmedNext(tokens: seq<string>, i: nat)
    requires i < |tokens|
    ensures AllTrimmed(tokens[..i + 1]) == AllTrimmed(tokens[..i]) + [Trimmed(tokens[i])]
  {
    assert tokens[..i + 1][..i] == tokens[..i];
  }

  lemma {:induction false} ExtraNext(options: seq<string>, names: seq<string>, p: string)
    ensures Extra(options, names + [p]) == Extra(options, names) + if p != "" && p !in options then [p] else []
  {
    assert (names + [p])[..|names|] == names;
  }

  method RequestedSubProtocols(options: seq<string>, rawHeader: string) returns (requested: seq<string>)
    ensures requested == options + Extra(options, NamesIn(rawHeader))
  {
    var tokens := Tokens(rawHeader, "");
    var protocols: seq<string> := [];
    for i := 0 to |tokens|
      invariant protocols == Extra(options, AllTrimmed(tokens[..i]))
    {
      var trimmed := Trimmed(tokens[i]);
      TrimmedNext(tokens, i);
      ExtraNext(options, AllTrimmed(tokens[..i]), trimmed);
      if trimmed != "" && trimmed !in options {
        protocols := protocols + [trimmed];
      }
    }
    assert tokens[..|tokens|] == tokens;
    requested := options + protocols;
  }

  lemma {:induction false} TrimmedLength(tokens: seq<string>)
    ensures |AllTrimmed(tokens)| == |tokens|
  {
    if tokens != [] {
      TrimmedLength(tokens[..|tokens| - 1]);
    }
  }

  // ----- joining and splitting -----

  lemma {:induction false} NameStays(p: string)
    requires IsValidName(p)
    ensures Trimmed(p) == p && Trimmed([' '] + p) == p && ',' !in p
  {
    assert ([' '] + p)[1..] == p;
    assert p != "" ==> IsNameChar(p[0]) && IsNameChar(p[|p| - 1]);
  }

  /** A part without a comma goes to the token under way. */
  lemma {:induction false} TokensThrough(p: string, rest: string, token: string)
    requires ',' !in p
    ensures Tokens(p + rest, token) == Tokens(rest, token + p)
    decreases p
  {
    if p == "" {
      assert p + rest == rest && token + p == token;
    } else {
      assert (p + rest)[1..] == p[1..] + rest;
      TokensThrough(p[1..], rest, token + [p[0]]);
      assert token + [p[0]] + p[1..] == token + p;
    }
  }

  function Blanked(ps: seq<string>): seq<string> {
    if ps == [] then [] else [" " + ps[0]] + Blanked(ps[1..])
  }

  lemma {:induction false} BlankedAt(ps: seq<string>)
    ensures |Blanked(ps)| == |ps| && forall i :: 0 <= i < |ps| ==> Blanked(ps)[i] == " " + ps[i]
    decreases ps
  {
    if ps != [] {
      BlankedAt(ps[1..]);
    }
  }

  /** The parts behind the first name all start with a blank. */
  lemma {:induction false} TokensOfJoined(ps: seq<string>, token: string)
    requires AllValid(ps) && ps != []
    ensures Tokens(Joined(ps), token) == Part(token + ps[0]) + Blanked(ps[1..])
    decreases |ps|
  {
    NameStays(ps[0]);
    if |ps| == 1 {
      assert ps[0] + "" == ps[0];
      TokensThrough(ps[0], "", token);
    } else {
      TokensThrough(ps[0], ", " + Joined(ps[1..]), token);
      CommaEnds(Joined(ps[1..]), token + ps[0]);
      assert Joined(ps) == ps[0] + (", " + Joined(ps[1..]));
      TokensOfJoined(ps[1..], " ");
    }
  }

  lemma {:induction false} CommaEnds(more: string, token: string)
    ensures Tokens(", " + more, token) == Part(token) + Tokens(more, " ")
  {
    assert (", " + more)[1..] == " " + more && (" " + more)[1..] == more;
    assert "" + [' '] == " ";
  }

  lemma {:induction false} TrimmedAt(tokens: seq<string>, i: nat)
    requires i < |tokens|
    ensures |AllTrimmed(tokens)| == |tokens| && AllTrimmed(tokens)[i] == Trimmed(tokens[i])
    decreases |tokens|
  {
    TrimmedLength(tokens);
    TrimmedLength(tokens[..|tokens| - 1]);
    if i < |tokens| - 1 {
      TrimmedAt(tokens[..|tokens| - 1], i);
    }
  }

  lemma {:induction false} PartsTrimmed(tokens: seq<string>, ps: seq<string>)
    requires AllValid(ps) && |tokens| == |ps|
    requires forall i :: 0 <= i < |ps| ==> tokens[i] == ps[i] || tokens[i] == " " + ps[i]
    ensures AllTrimmed(tokens) == ps
  {
    TrimmedLength(tokens);
    forall i | 0 <= i < |ps| ensures AllTrimmed(tokens)[i] == ps[i] {
      TrimmedAt(tokens, i);
      NameStays(ps[i]);
    }
  }

  lemma {:induction false} NamesJoined(ps: seq<string>)
    requires AllValid(ps)
    ensures NamesIn(Joined(ps)) == WithoutFirst(ps)
  {
    if ps != [] {
      TokensOfJoined(ps, "");
      BlankedAt(ps[1..]);
      assert "" + ps[0] == ps[0];
      PartsTrimmed(Part(ps[0]) + Blanked(ps[1..]), WithoutFirst(ps));
    }
  }

  /** Without a first name that is empty. */
  function WithoutFirst(ps: seq<string>): seq<string> {
    if ps != [] && ps[0] == "" then ps[1..] else ps
  }

  /** Without a last name that is empty. */
  function WithoutLast(ps: seq<string>): seq<string> {
    if ps != [] && ps[|ps| - 1] == "" then ps[..|ps| - 1] else ps
  }

  /** The value of the header, as the HTTP parser hands it on. */
  function HeaderValue(ps: seq<string>): string {
    Trimmed(Joined(ps))
  }

  lemma {:induction false} JoinedLast(ps: seq<string>)
    requires |ps| >= 2
    ensures Joined(ps) == Joined(ps[..|ps| - 1]) + ", " + ps[|ps| - 1]
    decreases |ps|
  {
    var n := |ps| - 1;
    if n == 1 {
      assert ps[1..] == [ps[1]] && ps[..1] == [ps[0]];
    } else {
      JoinedLast(ps[1..]);
      assert ps[1..][..n - 1] == ps[..n][1..];
    }
  }

  /** No blank in front, and none behind unless the last name is empty. */
  lemma {:induction false} JoinedEnds(ps: seq<string>)
    requires AllValid(ps) && ps != []
    ensures Joined(ps) != "" ==> !IsSpace(Joined(ps)[0])
    ensures ps[|ps| - 1] != "" ==> Joined(ps) != "" && !IsSpace(Joined(ps)[|Joined(ps)| - 1])
  {
    var last := ps[|ps| - 1];
    assert ps[0] != "" ==> IsNameChar(ps[0][0]);
    assert last != "" ==> IsNameChar(last[|last| - 1]);
    if |ps| >= 2 {
      JoinedLast(ps);
    }
  }

  lemma {:induction false} TrimmedEnd(line: string)
    requires line != "" ==> !IsSpace(line[0])
    ensures line != "" && !IsSpace(line[|line| - 1]) ==> Trimmed(line) == line
    ensures Trimmed(line + ", ") == line + ","
  {
    var longer := line + ", ";
    assert longer[..|longer| - 1] == line + ",";
    assert TrimmedLeft(longer) == longer && TrimmedRight(longer) == TrimmedRight(line + ",") == line + ",";
  }

  /** A comma at the end ends nothing but the token before it. */
  lemma {:induction false} CommaAtEnd(line: string, token: string)
    ensures Tokens(line + ",", token) == Tokens(line, token)
    decreases |line|
  {
    if line == "" {
      assert (line + ",")[1..] == "";
    } else {
      assert (line + ",")[1..] == line[1..] + ",";
      CommaAtEnd(line[1..], if line[0] == ',' then "" else token + [line[0]]);
    }
  }

  lemma {:induction false} JoinedWithoutLast(ps: seq<string>)
    requires AllValid(ps) && |ps| >= 2 && ps[|ps| - 1] == ""
    ensures NamesIn(HeaderValue(ps)) == WithoutFirst(WithoutLast(ps))
  {
    var before := ps[..|ps| - 1];
    JoinedLast(ps);
    assert Joined(ps) == Joined(before) + ", ";
    JoinedEnds(before);
    TrimmedEnd(Joined(before));
    CommaAtEnd(Joined(before), "");
    NamesJoined(before);
  }

  /**
   * The server gets every name, in order, except that an empty first or last name is lost; so the list survives exactly
   * when neither its first nor its last name is empty.
   */
  lemma {:induction false} SplitOfJoined(ps: seq<string>)
    requires AllValid(ps)
    ensures NamesIn(HeaderValue(ps)) == WithoutFirst(WithoutLast(ps))
    ensures NamesIn(HeaderValue(ps)) == ps <==> ps == [] || (ps[0] != "" && ps[|ps| - 1] != "")
  {
    if ps != [] && ps[|ps| - 1] != "" {
      JoinedEnds(ps);
      TrimmedEnd(Joined(ps));
      NamesJoined(ps);
    } else if |ps| >= 2 {
      JoinedWithoutLast(ps);
    }
  }

  // ----- the server's choice and the client's check -----

  /** The first of the client's names that the server supports; the empty name when there is none. */
  function Chosen(client: seq<string>, supported: seq<string>): string {
    if client == [] then "" else if client[0] in supported then client[0] else Chosen(client[1..], supported)
  }

  predicate FirstSupported(p: string, client: seq<string>, supported: seq<string>) {
    exists i :: 0 <= i < |client| && client[i] == p && p in supported && forall j :: 0 <= j < i ==> client[j] !in supported
  }

  lemma {:induction false} ChosenIsFirst(client: seq<string>, supported: seq<string>)
    ensures if exists q :: q in client && q in supported then FirstSupported(Chosen(client, supported), client, supported)
            else Chosen(client, supported) == ""
    decreases client
  {
    if client != [] && client[0] !in supported {
      ChosenIsFirst(client[1..], supported);
      var p := Chosen(client[1..], supported);
      if FirstSupported(p, client[1..], supported) {
        var i :| 0 <= i < |client[1..]| && client[1..][i] == p && p in supported
                 && forall j :: 0 <= j < i ==> client[1..][j] !in supported;
        assert client[i + 1] == p;
        forall j | 0 <= j < i + 1 ensures client[j] !in supported {
          assert j > 0 ==> client[j] == client[1..][j - 1];
        }
      }
    } else if client != [] {
      assert client[0] in client;
    }
  }

  /** The client refuses a protocol that it has not asked for. */
  predicate ClientRefuses(requested: seq<string>, protocol: string) {
    protocol != "" && protocol !in requested
  }

  /** The first of the client's names that is valid and that the server supports. */
  predicate FirstValid(p: string, requested: seq<string>, supported: seq<string>) {
    exists i :: 0 <= i < |requested| && requested[i] == p && IsValidName(p) && p in supported
             && forall j :: 0 <= j < i ==> !(IsValidName(requested[j]) && requested[j] in supported)
  }

  /** The first of the names that were kept is the first of all names. */
  lemma {:induction false} FirstOfValid(p: string, requested: seq<string>, supported: seq<string>)
    requires FirstSupported(p, ValidOnly(requested), supported)
    ensures FirstValid(p, requested, supported)
  {
    var sent := ValidOnly(requested);
    var ks := ValidOnlyAt(requested);
    var i :| 0 <= i < |sent| && sent[i] == p && p in supported && forall j :: 0 <= j < i ==> sent[j] !in supported;
    forall j | 0 <= j < ks[i] && IsValidName(requested[j]) ensures requested[j] !in supported {
      var m :| 0 <= m < |ks| && ks[m] == j;
      assert m < i && sent[m] == requested[j];
    }
    assert requested[ks[i]] == p;
  }

  /** Names that the server does not support, in front or behind, make no difference. */
  lemma {:induction false} ChosenWithout(ps: seq<string>, supported: seq<string>)
    requires "" !in supported
    ensures Chosen(WithoutFirst(WithoutLast(ps)), supported) == Chosen(ps, supported)
  {
    if ps != [] && ps[|ps| - 1] == "" {
      ChosenLast(ps[..|ps| - 1], supported);
      assert ps == ps[..|ps| - 1] + [""];
    }
  }

  lemma {:induction false} ChosenLast(ps: seq<string>, supported: seq<string>)
    requires "" !in supported
    ensures Chosen(ps + [""], supported) == Chosen(ps, supported)
    decreases ps
  {
    if ps == [] {
      assert ([""])[1..] == [] && ps + [""] == [""];
    } else {
      assert (ps + [""])[1..] == ps[1..] + [""];
      ChosenLast(ps[1..], supported);
    }
  }

  /** What the server sees of a request. */
  function Seen(requested: seq<string>): seq<string> {
    NamesIn(HeaderValue(ValidOnly(requested)))
  }

  /**
   * In terms of the request itself: a server whose own names are not empty takes the first name that is valid and that
   * it supports, wherever empty ones stand, and none exactly if there is no such name.
   */
  lemma {:induction false} FirstValidTaken(requested: seq<string>, supported: seq<string>)
    requires "" !in supported
    ensures var protocol := Chosen(Seen(requested), supported);
      if exists q :: q in requested && IsValidName(q) && q in supported then FirstValid(protocol, requested, supported)
      else protocol == ""
  {
    var sent := ValidOnly(requested);
    var ks := ValidOnlyAt(requested);
    ValidOnlyFacts(requested);
    SplitOfJoined(sent);
    ChosenWithout(sent, supported);
    ChosenIsFirst(sent, supported);
    if q :| q in requested && IsValidName(q) && q in supported {
      var k :| 0 <= k < |requested| && requested[k] == q;
      var i :| 0 <= i < |ks| && ks[i] == k;
      assert sent[i] == q;
      FirstOfValid(Chosen(sent, supported), requested, supported);
    } else {
      assert forall p :: p in sent ==> p in requested && IsValidName(p);
    }
  }

  /**
   * Negotiation, for every list of names: the server sees the client's valid names in order, without an empty one at
   * either end; it takes the first of them that it supports; and the client never refuses what the server takes.
   */
  lemma {:induction false} Negotiation(requested: seq<string>, supported: seq<string>)
    ensures var sent, seen := ValidOnly(requested), Seen(requested);
      var protocol := Chosen(seen, supported);
      && seen == WithoutFirst(WithoutLast(sent)) && (NoneEmpty(requested) ==> seen == sent)
      && (if exists q :: q in seen && q in supported then FirstSupported(protocol, seen, supported) else protocol == "")
      && !ClientRefuses(requested, protocol)
  {
    var sent, seen := ValidOnly(requested), Seen(requested);
    ValidOnlyFacts(requested);
    SplitOfJoined(sent);
    ChosenIsFirst(seen, supported);
    assert forall p :: p in seen ==> p in sent;
  }

  /** The names of the raw header that are not empty and not options, each in its place. */
  lemma {:induction false} ExtraAt(options: seq<string>, names: seq<string>) returns (ks: seq<nat>)
    ensures PickedAt(Extra(options, names), names, p => p != "" && p !in options, ks)
  {
    if names == [] {
      ks := [];
    } else {
      var keep := p => p != "" && p !in options;
      var before, p := names[..|names| - 1], names[|names| - 1];
      var picked := ExtraAt(options, before);
      PickedNext(Extra(options, before), before, keep, picked, p);
      assert names == before + [p];
      ExtraNext(options, before, p);
      if keep(p) {
        ks := picked + [|before|];
      } else {
        ks := picked;
        assert Extra(options, names) == Extra(options, before);
      }
    }
  }

  lemma {:induction false} ExtraFacts(options: seq<string>, names: seq<string>)
    ensures NoneEmpty(Extra(options, names))
    ensures forall p :: p in Extra(options, names) <==> p in names && p != "" && p !in options
  {
    var ks := ExtraAt(options, names);
    forall p | p in names && p != "" && p !in options ensures p in Extra(options, names) {
      var k :| 0 <= k < |names| && names[k] == p;
      var i :| 0 <= i < |ks| && ks[i] == k;
      assert Extra(options, names)[i] == p;
    }
  }

  /** The client accepts exactly: no protocol, or one that it asked for. */
  lemma {:induction false} AcceptedProtocols(requested: seq<string>, protocol: string)
    ensures !ClientRefuses(requested, protocol)
       <==> |protocol| == 0 || exists i :: 0 <= i < |requested| && requested[i] == protocol
  {
  }

  /**
   * From the client's two sources to the choice: the options and the raw header together are negotiated without loss
   * when no option is empty, whatever the raw header is.
   */
  lemma {:induction false} RequestNegotiated(options: seq<string>, rawHeader: string, supported: seq<string>)
    requires NoneEmpty(options)
    ensures var requested := options + Extra(options, NamesIn(rawHeader));
      var protocol := Chosen(Seen(requested), supported);
      && Seen(requested) == ValidOnly(requested) && !ClientRefuses(requested, protocol)
      && (forall p :: p in requested <==> p in options || (p in NamesIn(rawHeader) && p != ""))
  {
    ExtraFacts(options, NamesIn(rawHeader));
    Negotiation(options + Extra(options, NamesIn(rawHeader)), supported);
  }
}
