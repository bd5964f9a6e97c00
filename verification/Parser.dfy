/** The command line: its tokens, and the list of jobs that is built from them. */
module Parser {
  import opened Bytes
  import Paths

  const AMPERSAND: byte := 38
  const SEMICOLON: byte := 59
  const LESS: byte := 60
  const GREATER: byte := 62
  const SPACE: byte := 32

  /** `is_a_deliminator`; NUL is one too. */
  predicate Delimiter(c: byte) { c == AMPERSAND || c == SEMICOLON || c == GREATER || c == LESS || c == 0 }

  /** The character at a position of a line; the line ends with NUL. */
  function CharAt(line: seq<byte>, i: nat): byte
    requires i <= |line|
  {
    if i < |line| then line[i] else 0
  }

  // ---- tokens ----

  /** The position of the first delimiter at or after i. */
  function DelimiterFrom(line: seq<byte>, i: nat): (r: nat)
    requires i <= |line|
    ensures i <= r <= |line| && Delimiter(CharAt(line, r))
    ensures forall k :: i <= k < r ==> !Delimiter(line[k])
    decreases |line| - i
  {
    if Delimiter(CharAt(line, i)) then i else DelimiterFrom(line, i + 1)
  }

  /** Where the token that starts at i ends: behind its delimiter, or at the end of the line. */
  function TokenEnd(line: seq<byte>, i: nat): (r: nat)
    requires i < |line| && 0 !in line
    ensures i < r <= |line|
  {
    var d := DelimiterFrom(line, i);
    if d < |line| then d + 1 else d
  }

  /** All tokens from position i on. */
  function TokensFrom(line: seq<byte>, i: nat): seq<seq<byte>>
    requires i <= |line| && 0 !in line
    decreases |line| - i
  {
    if i == |line| then [] else [line[i..TokenEnd(line, i)]] + TokensFrom(line, TokenEnd(line, i))
  }

  function Flatten(toks: seq<seq<byte>>): seq<byte> {
    if toks == [] then [] else toks[0] + Flatten(toks[1..])
  }

  /** Not empty, with no delimiter before its last character. */
  predicate TokenOk(tok: seq<byte>) {
    tok != [] && forall k :: 0 <= k < |tok| - 1 ==> !Delimiter(tok[k])
  }

  predicate EndsInDelimiter(tok: seq<byte>) { tok != [] && Delimiter(tok[|tok| - 1]) }

  /** The line cut behind every delimiter. */
  predicate Cut(toks: seq<seq<byte>>, line: seq<byte>) {
    && Flatten(toks) == line
    && (forall k :: 0 <= k < |toks| ==> TokenOk(toks[k]))
    && (forall k :: 0 <= k < |toks| - 1 ==> EndsInDelimiter(toks[k]))
  }

  /** The tokens are the line cut behind every delimiter. */
  lemma {:induction false} TokensCut(line: seq<byte>, i: nat)
    requires i <= |line| && 0 !in line
    ensures Cut(TokensFrom(line, i), line[i..])
    decreases |line| - i
  {
    if i < |line| {
      var e := TokenEnd(line, i);
      var d := DelimiterFrom(line, i);
      TokensCut(line, e);
      var toks := TokensFrom(line, i);
      assert toks[1..] == TokensFrom(line, e);
      assert line[i..] == line[i..e] + line[e..];
      assert line[i] in line;
      forall k | 0 <= k < |toks| ensures TokenOk(toks[k]) {
        if k > 0 {
          assert toks[k] == toks[1..][k - 1];
        }
      }
      forall k | 0 <= k < |toks| - 1 ensures EndsInDelimiter(toks[k]) {
        if k > 0 {
          assert toks[k] == toks[1..][k - 1];
        } else {
          assert e < |line| && e == d + 1;
        }
      }
    }
  }

  /** There is only one way to cut a line so. */
  lemma {:induction false} CutIsUnique(a: seq<seq<byte>>, b: seq<seq<byte>>, line: seq<byte>)
    requires Cut(a, line) && Cut(b, line) && 0 !in line
    ensures a == b
    decreases |a|
  {
    if a == [] || b == [] {
      assert a == b == [];
    } else {
      assert TokenOk(a[0]) && TokenOk(b[0]);
      var rest := line[|a[0]|..];
      CutTail(a, line);
      CutTail(b, line);
      CutHead(a, line);
      CutHead(b, line);
      CutIsUnique(a[1..], b[1..], rest);
      assert a == [a[0]] + a[1..] && b == [b[0]] + b[1..];
    }
  }

  lemma CutTail(a: seq<seq<byte>>, line: seq<byte>)
    requires Cut(a, line) && a != []
    ensures |a[0]| <= |line| && a[0] == line[..|a[0]|] && Cut(a[1..], line[|a[0]|..])
  {
    assert line == a[0] + Flatten(a[1..]);
    assert forall k :: 0 <= k < |a[1..]| ==> a[1..][k] == a[k + 1];
  }

  /** The first token of a cut ends where the tokenizer's does. */
  lemma CutHead(a: seq<seq<byte>>, line: seq<byte>)
    requires Cut(a, line) && a != [] && 0 !in line && line != []
    ensures |a[0]| == TokenEnd(line, 0)
  {
    CutTail(a, line);
    var n := |a[0]|;
    assert TokenOk(a[0]);
    forall k | 0 <= k < n - 1 ensures !Delimiter(line[k]) {
      assert line[k] == a[0][k];
    }
    assert line[n - 1] == a[0][n - 1];
    if |a| > 1 {
      assert EndsInDelimiter(a[0]);
    } else {
      assert a[1..] == [];
    }
  }

  /** So the tokenizer is characterised by its result. */
  lemma TokensAreTheCut(line: seq<byte>, toks: seq<seq<byte>>)
    requires 0 !in line
    ensures toks == TokensFrom(line, 0) <==> Cut(toks, line)
  {
    assert line[0..] == line;
    TokensCut(line, 0);
    if Cut(toks, line) {
      CutIsUnique(toks, TokensFrom(line, 0), line);
    }
  }

  /** `t`: a line and the position in it. */
  class Tokenizer {
    const str: seq<byte>
    var pos: nat

    constructor (line: seq<byte>)
      ensures str == line && pos == 0
    {
      str, pos := line, 0;
    }

    /** `get_next_token`, with None for NULL */
    method GetNextToken() returns (ok: bool, token: seq<byte>)
      requires pos <= |str| && 0 !in str
      modifies this
      ensures old(pos) <= pos <= |str| && (ok <==> old(pos) < |str|)
      ensures ok ==> token == str[old(pos)..pos] && pos == TokenEnd(str, old(pos))
      ensures !ok ==> token == [] && pos == old(pos)
      ensures TokensFrom(str, old(pos)) == (if ok then [token] else []) + TokensFrom(str, pos)
    {
      var start := pos;
      forall k | 0 <= k < |str| ensures str[k] != 0 {
        assert str[k] in str;
      }
      if CharAt(str, pos) == 0 {
        assert [] + TokensFrom(str, pos) == TokensFrom(str, pos);
        return false, [];
      }
      var count: int := 0;
      while !Delimiter(CharAt(str, pos))
        invariant start <= pos <= |str| && count == pos - start && count >= 0
        invariant DelimiterFrom(str, pos) == DelimiterFrom(str, start)
        decreases |str| - pos
      {
        count := count + 1;
        pos := pos + 1;
      }
      if CharAt(str, pos) == 0 {
        pos, count := pos - 1, count - 1;
      }
      pos := pos - count;
      token := [];
      var i := 0;
      while i <= count
        invariant 0 <= i <= count + 1 && pos == start + i && pos <= |str|
        invariant token == str[start..pos]
        decreases count + 1 - i
      {
        token := token + [CharAt(str, pos)];
        pos := pos + 1;
        i := i + 1;
      }
      return true, token;
    }
  }

  // ---- jobs ----

  datatype Redirection = NoRedirection | Input | Append | Overwrite

  /** `which_is_contained`: the first redirection sign of the whole line. */
  function RedirectionOf(line: seq<byte>): Redirection {
    if line == [] then NoRedirection
    else if line[0] == LESS then Input
    else if line[0] == GREATER then (if |line| > 1 && line[1] == GREATER then Append else Overwrite)
    else RedirectionOf(line[1..])
  }

  predicate Sign(c: byte) { c == LESS || c == GREATER }

  /** What a line asks for whose first sign is at i, or that has none, with i its length: "<" makes it
      input, ">>" appends, any other ">" overwrites. */
  lemma {:induction false} RedirectionExactly(line: seq<byte>, i: nat)
    requires i <= |line| && (i < |line| ==> Sign(line[i])) && forall j :: 0 <= j < i ==> !Sign(line[j])
    ensures RedirectionOf(line) == if i == |line| then NoRedirection
                                   else if line[i] == LESS then Input
                                   else if i + 1 < |line| && line[i + 1] == GREATER then Append else Overwrite
    decreases i
  {
    if i > 0 {
      RedirectionExactly(line[1..], i - 1);
    }
  }

  /** `which_is_contained` */
  method WhichIsContained(line: seq<byte>) returns (r: Redirection)
    ensures r == RedirectionOf(line)
  {
    for i := 0 to |line|
      invariant forall j :: 0 <= j < i ==> !Sign(line[j])
    {
      var c := line[i];
      if c == LESS {
        RedirectionExactly(line, i);
        return Input;
      } else if c == GREATER {
        RedirectionExactly(line, i);
        if i + 1 < |line| && line[i + 1] == GREATER {
          return Append;
        }
        return Overwrite;
      }
    }
    RedirectionExactly(line, |line|);
    r := NoRedirection;
  }

  /** The separators of `split_white_space`. */
  const ARGUMENT_SEPARATORS: set<byte> := {SPACE, 44, LESS}

  datatype JobRecord = JobRecord(full: seq<byte>, text: seq<byte>, pass: bool, background: bool, redirection: Redirection, args: seq<seq<byte>>)

  predicate EndsIn(tok: seq<byte>, c: byte) { tok != [] && tok[|tok| - 1] == c }

  function Strip(tok: seq<byte>, c: byte): seq<byte> { if EndsIn(tok, c) then tok[..|tok| - 1] else tok }

  /** The three tests of lines 277-294, one after the other. */
  function CommandOf(tok: seq<byte>): seq<byte> { Strip(Strip(Strip(tok, AMPERSAND), SEMICOLON), GREATER) }

  /** `isWhiteSpaceJob` */
  predicate Blank(tok: seq<byte>) { forall c :: c in tok ==> c == SPACE || Delimiter(c) }

  /** Its loop. */
  method IsWhiteSpaceJob(tok: seq<byte>) returns (blank: bool)
    ensures blank <==> Blank(tok)
  {
    for pos := 0 to |tok|
      invariant forall k :: 0 <= k < pos ==> tok[k] == SPACE || Delimiter(tok[k])
    {
      if tok[pos] != SPACE && !Delimiter(tok[pos]) {
        assert tok[pos] in tok;
        return false;
      }
    }
    blank := true;
  }

  function JobOf(tok: seq<byte>, line: seq<byte>): JobRecord {
    JobRecord(tok, CommandOf(tok), Blank(tok), EndsIn(tok, AMPERSAND), RedirectionOf(line), Paths.Tokens(CommandOf(tok), ARGUMENT_SEPARATORS))
  }

  /** A job of a token runs in the background exactly when "&" ends the token, and is passed over exactly
      when there are only spaces before the last character and that is a space or a delimiter. */
  lemma FlagsExactly(tok: seq<byte>, line: seq<byte>)
    requires TokenOk(tok)
    ensures JobOf(tok, line).full == tok
    ensures JobOf(tok, line).background <==> tok[|tok| - 1] == AMPERSAND
    ensures JobOf(tok, line).pass <==>
              && (forall k :: 0 <= k < |tok| - 1 ==> tok[k] == SPACE)
              && (tok[|tok| - 1] == SPACE || Delimiter(tok[|tok| - 1]))
  {
    forall k | 0 <= k < |tok| ensures tok[k] in tok {
    }
  }

  /** A word of an argument list. */
  predicate Word(w: seq<byte>) {
    Paths.Clean(w, ARGUMENT_SEPARATORS) && forall c :: c in w ==> !Delimiter(c)
  }

  /** Words with a space before each. */
  function Spaced(words: seq<seq<byte>>): seq<byte> {
    if words == [] then [] else [SPACE] + words[0] + Spaced(words[1..])
  }

  lemma {:induction false} SpacedTokens(words: seq<seq<byte>>)
    requires forall w :: w in words ==> Word(w)
    ensures Paths.Tokens(Spaced(words), ARGUMENT_SEPARATORS) == words
  {
    if words != [] {
      hide Paths.Tokens;
      var word, rest := words[0], Spaced(words[1..]);
      assert word in words && Word(word);
      assert Spaced(words) == [SPACE] + (word + rest);
      Paths.SeparatorFirst(SPACE, word + rest, ARGUMENT_SEPARATORS);
      SpacedTokens(words[1..]);
      Paths.TokensBefore(word, rest, ARGUMENT_SEPARATORS);
      Paths.OneToken(word, ARGUMENT_SEPARATORS);
      assert words == [word] + words[1..];
    }
  }

  predicate Mark(mark: seq<byte>) { mark == [] || mark == [AMPERSAND] || mark == [SEMICOLON] || mark == [GREATER] }

  lemma LastChar(text: seq<byte>, mark: seq<byte>)
    requires forall c :: c in text ==> !Delimiter(c)
    ensures text != [] ==> !Delimiter(text[|text| - 1])
    ensures |mark| == 1 ==> (text + mark)[|text|] == mark[0] && (text + mark)[..|text|] == text
    ensures mark == [] ==> text + mark == text
  {
    assert text != [] ==> text[|text| - 1] in text;
  }

  /** Only the mark is stripped. */
  lemma CommandIsText(text: seq<byte>, mark: seq<byte>)
    requires (forall c :: c in text ==> !Delimiter(c)) && Mark(mark)
    ensures CommandOf(text + mark) == text
  {
    LastChar(text, mark);
  }

  /** Words that are spaced out, with "&", ";" or ">" behind them or nothing, are the arguments of the job. */
  lemma ArgumentsAreWords(words: seq<seq<byte>>, mark: seq<byte>, line: seq<byte>)
    requires (forall w :: w in words ==> Word(w)) && Mark(mark)
    ensures JobOf(Spaced(words) + mark, line).args == words
  {
    hide Paths.Tokens, Spaced, Word, CommandOf, Mark;
    SpacedTokens(words);
    SpacedChars(words);
    CommandIsText(Spaced(words), mark);
  }

  lemma {:induction false} SpacedChars(words: seq<seq<byte>>)
    requires forall w :: w in words ==> Word(w)
    ensures forall c :: c in Spaced(words) ==> !Delimiter(c)
  {
    if words != [] {
      assert words[0] in words;
      SpacedChars(words[1..]);
    }
  }

  /** The tokens that become jobs: a ">" alone does not. */
  function Kept(toks: seq<seq<byte>>): seq<seq<byte>> {
    if toks == [] then [] else if toks[0] == [GREATER] then Kept(toks[1..]) else [toks[0]] + Kept(toks[1..])
  }

  lemma {:induction false} TokenChars(s: seq<byte>, seps: set<byte>, a: seq<byte>, c: byte)
    requires a in Paths.Tokens(s, seps) && c in a
    ensures c in s
    decreases |s|
  {
    if s[0] in seps {
      TokenChars(s[1..], seps, a, c);
    } else {
      var n := Paths.RunLength(s, seps);
      if a != s[..n] {
        TokenChars(s[n..], seps, a, c);
      }
    }
  }

  /** Of a token at most the delimiter at its end is stripped, and no argument of a job contains a
      delimiter or a separator. */
  lemma ArgumentsAreClean(tok: seq<byte>, line: seq<byte>)
    requires TokenOk(tok) && 0 !in tok
    ensures CommandOf(tok) == if tok[|tok| - 1] in {AMPERSAND, SEMICOLON, GREATER} then tok[..|tok| - 1] else tok
    ensures forall a, c :: a in JobOf(tok, line).args && c in a ==> !Delimiter(c) && c !in ARGUMENT_SEPARATORS
  {
    var n := |tok| - 1;
    if n > 0 {
      assert !Delimiter(tok[n - 1]);
    }
    var command := CommandOf(tok);
    forall a, c | a in Paths.Tokens(command, ARGUMENT_SEPARATORS) && c in a ensures !Delimiter(c) && c !in ARGUMENT_SEPARATORS {
      TokenChars(command, ARGUMENT_SEPARATORS, a, c);
    }
  }

  // ---- the job list ----

  class Job {
    var next: Job?
    var full: seq<byte>
    var text: seq<byte>
    var pass: bool
    var background: bool
    var redirection: Redirection
    var args: seq<seq<byte>>
    var pgid: int
    var suspend: bool

    /** A zeroed node. */
    constructor ()
      ensures next == null && args == [] && !suspend
    {
      next, full, text, pass, background, redirection, args := null, [], [], false, false, NoRedirection, [];
      pgid, suspend := 0, false;
    }

    function Here(): JobRecord
      reads this`full, this`text, this`pass, this`background, this`redirection, this`args
    {
      JobRecord(full, text, pass, background, redirection, args)
    }
  }

  ghost function At(nodes: seq<Job>, i: nat): Job? {
    if i < |nodes| then nodes[i] else null
  }

  ghost predicate LinkedAt(nodes: seq<Job>, i: nat)
    requires i < |nodes|
    reads nodes`next
  {
    nodes[i].next == At(nodes, i + 1)
  }

  ghost predicate Different(nodes: seq<Job>) {
    forall i, j :: 0 <= i < j < |nodes| ==> nodes[i] != nodes[j]
  }

  /** The list that starts at this node has these nodes, all different. */
  ghost predicate IsList(head: Job?, nodes: seq<Job>)
    reads nodes`next
  {
    head == At(nodes, 0) && Different(nodes) && forall i {:trigger LinkedAt(nodes, i)} :: 0 <= i < |nodes| ==> LinkedAt(nodes, i)
  }

  /** The first pass of `perform_parse` (lines 221-227) */
  method CountJobs(line: seq<byte>) returns (n: nat)
    requires 0 !in line
    ensures n == |Kept(TokensFrom(line, 0))|
  {
    var t := new Tokenizer(line);
    n := 0;
    var ok, token := t.GetNextToken();
    while ok
      invariant t.pos <= |line| && t.str == line && fresh(t)
      invariant |Kept(TokensFrom(line, 0))| == n + |Kept((if ok then [token] else []) + TokensFrom(line, t.pos))|
      invariant !ok ==> t.pos == |line|
      decreases |line| - t.pos, ok
    {
      assert ([token] + TokensFrom(line, t.pos))[1..] == TokensFrom(line, t.pos);
      if token != [GREATER] {
        n := n + 1;
      }
      ok, token := t.GetNextToken();
    }
  }

  /** One turn of the second pass (lines 241-298): node cur is filled and a fresh node linked behind it. */
  method AddJob(cur: Job, token: seq<byte>, line: seq<byte>, head: Job, ghost nodes: seq<Job>) returns (spare: Job)
    requires IsList(head, nodes) && nodes != [] && cur == nodes[|nodes| - 1]
    modifies cur
    ensures fresh(spare) && IsList(head, nodes + [spare])
    ensures cur.Here() == JobOf(token, line).(args := old(cur.args)) && spare.args == []
  {
    spare := new Job();
    assert LinkedAt(nodes, |nodes| - 1);
    cur.full, cur.text := token, token;
    cur.next := spare;
    cur.pass := IsWhiteSpaceJob(token);
    cur.background := EndsIn(cur.text, AMPERSAND);
    cur.text := Strip(cur.text, AMPERSAND);
    cur.text := Strip(cur.text, SEMICOLON);
    cur.redirection := WhichIsContained(line);
    cur.text := Strip(cur.text, GREATER);
    forall i | 0 <= i < |nodes| + 1 ensures LinkedAt(nodes + [spare], i) {
      if i < |nodes| - 1 {
        assert old(LinkedAt(nodes, i));
      }
    }
  }

  /** The node describes the job of this token, but for the arguments. */
  ghost predicate Filled(node: Job, token: seq<byte>, line: seq<byte>)
    reads node
  {
    node.Here() == JobOf(token, line).(args := [])
  }

  lemma KeptStep(token: seq<byte>, rest: seq<seq<byte>>)
    ensures Kept([token] + rest) == if token == [GREATER] then Kept(rest) else [token] + Kept(rest)
  {
    assert ([token] + rest)[1..] == rest;
  }

  lemma OneNode(node: Job)
    requires node.next == null
    ensures IsList(node, [node])
  {
  }

  lemma NoTokens()
    ensures Kept([]) == []
  {
  }

  /** The second pass: one node for every kept token and a spare one behind them. */
  method BuildJobs(line: seq<byte>) returns (head: Job, ghost nodes: seq<Job>)
    requires 0 !in line
    ensures IsList(head, nodes) && |nodes| == |Kept(TokensFrom(line, 0))| + 1
    ensures forall i :: 0 <= i < |nodes| ==> fresh(nodes[i])
    ensures forall i {:trigger nodes[i]} :: 0 <= i < |nodes| - 1 ==> Filled(nodes[i], Kept(TokensFrom(line, 0))[i], line)
  {
    hide JobOf, TokenEnd, Kept, LinkedAt;
    var t := new Tokenizer(line);
    ghost var kept := Kept(TokensFrom(line, 0));
    head := new Job();
    var cur := head;
    nodes := [head];
    OneNode(head);
    var ok, token := t.GetNextToken();
    ghost var n := 0;
    while ok
      invariant t.pos <= |line| && t.str == line && fresh(t) && (!ok ==> t.pos == |line|)
      invariant n + 1 == |nodes| && n <= |kept| && cur == nodes[n] && IsList(head, nodes)
      invariant kept[n..] == Kept((if ok then [token] else []) + TokensFrom(line, t.pos))
      invariant forall i :: 0 <= i < |nodes| ==> fresh(nodes[i]) && nodes[i] as object != t
      invariant forall i {:trigger nodes[i]} :: 0 <= i < n ==> Filled(nodes[i], kept[i], line)
      invariant cur.args == []
      decreases |line| - t.pos, ok
    {
      KeptStep(token, TokensFrom(line, t.pos));
      if token != [GREATER] {
        assert kept[n] == token && kept[n + 1..] == kept[n..][1..];
        var spare := AddJob(cur, token, line, head, nodes);
        nodes := nodes + [spare];
        cur, n := spare, n + 1;
      }
      ok, token := t.GetNextToken();
    }
    NoTokens();
    assert [] + TokensFrom(line, t.pos) == [];
  }

  /** The last loop of `perform_parse` (lines 301-330): arguments are split, and the node before the
      spare one is made the last. */
  method SplitAndTrim(head: Job, ghost nodes: seq<Job>)
    requires IsList(head, nodes) && |nodes| >= 2
    modifies nodes
    ensures IsList(head, nodes[..|nodes| - 1])
    ensures forall i {:trigger nodes[i]} :: 0 <= i < |nodes| - 1 ==>
              nodes[i].Here() == old(nodes[i].Here()).(args := Paths.Tokens(old(nodes[i].text), ARGUMENT_SEPARATORS))
  {
    hide Paths.Tokens;
    ghost var m := |nodes| - 1;
    var cur: Job? := head;
    ghost var k := 0;
    while cur != null
      invariant 0 <= k <= m && cur == (if k == m then null else nodes[k])
      invariant forall i {:trigger LinkedAt(nodes, i)} :: 0 <= i < |nodes| ==> (i != m - 1 || k < m ==> LinkedAt(nodes, i))
      invariant k == m ==> nodes[m - 1].next == null
      invariant forall i {:trigger nodes[i]} :: 0 <= i < m ==>
                  nodes[i].Here() == if i < k then old(nodes[i].Here()).(args := Paths.Tokens(old(nodes[i].text), ARGUMENT_SEPARATORS)) else old(nodes[i].Here())
      decreases m - k
    {
      assert LinkedAt(nodes, k) && LinkedAt(nodes, k + 1);
      cur.args := Paths.Tokens(cur.text, ARGUMENT_SEPARATORS);
      assert cur.next == nodes[k + 1] && (k + 1 < m ==> LinkedAt(nodes, k + 1));
      assert cur.next.next == null <==> k == m - 1;
      label Uncut:
      if cur.next.next == null {
        cur.next := null;
      }
      forall i | 0 <= i < |nodes| && (i != m - 1 || k + 1 < m) ensures LinkedAt(nodes, i) {
        assert old@Uncut(LinkedAt(nodes, i));
        assert i != k ==> nodes[i] != nodes[k];
      }
      cur, k := cur.next, k + 1;
    }
    forall i | 0 <= i < m ensures LinkedAt(nodes[..m], i) {
      assert i < m - 1 ==> LinkedAt(nodes, i);
    }
  }

  /** `perform_parse` of a line that was read: the jobs, in order, and their number. */
  method PerformParse(line: seq<byte>) returns (n: nat, head: Job?, ghost nodes: seq<Job>)
    requires 0 !in line && Kept(TokensFrom(line, 0)) != []
    ensures n == |Kept(TokensFrom(line, 0))|
    ensures IsList(head, nodes) && |nodes| == n
    ensures forall i {:trigger nodes[i]} :: 0 <= i < n ==> nodes[i].Here() == JobOf(Kept(TokensFrom(line, 0))[i], line)
  {
    n := CountJobs(line);
    var first, all := BuildJobs(line);
    SplitAndTrim(first, all);
    head, nodes := first, all[..n];
  }
}
