/** The peer file and chain file formats and their loaders' fallbacks, with the file
    system abstracted away: a file's contents are an `Option<string>`, `None` when the
    file is missing or cannot be read as text. */
module Storage {
  import opened Wrappers
  import opened Strings
  import opened Cryptography
  import opened Blockchain

  /** `save_peers`: each peer followed by a newline, in the given order. The content is
      empty only for no peers, otherwise starts with the first peer and its newline, and
      ends with a newline. */
  function Serialise(peers: seq<string>): (content: string)
    ensures |content| >= |peers|
    ensures content == [] <==> peers == []
    ensures peers != [] ==> IsPrefix(peers[0] + "\n", content)
    ensures content != [] ==> content[|content| - 1] == '\n'
    decreases |peers|
  {
    if peers == [] then [] else peers[0] + "\n" + Serialise(peers[1..])
  }

  /** The position of the first newline, or the length when there is none. */
  function NewlineIndex(s: string): (i: nat)
    ensures i <= |s|
    ensures i < |s| ==> s[i] == '\n'
    ensures forall j :: 0 <= j < i ==> s[j] != '\n'
    decreases |s|
  {
    if s == [] then 0 else if s[0] == '\n' then 0 else 1 + NewlineIndex(s[1..])
  }

  /** Drops one carriage return before a line feed. */
  function StripCR(line: string): (r: string)
    ensures r == line || (line != [] && r == line[..|line| - 1] && line[|line| - 1] == '\r')
  {
    if line != [] && line[|line| - 1] == '\r' then line[..|line| - 1] else line
  }

  /** Rust's `str::lines`: splits at "\n" or "\r\n"; a final line ending adds no empty
      line; a lone "\r" is kept. */
  function Lines(s: string): (ls: seq<string>)
    ensures |ls| <= |s|
    decreases |s|
  {
    if s == [] then []
    else
      var i := NewlineIndex(s);
      if i == |s| then [s] else [StripCR(s[..i])] + Lines(s[i + 1..])
  }

  /** No line holds a newline. */
  lemma {:induction false} LinesNoNewline(s: string)
    ensures forall k :: 0 <= k < |Lines(s)| ==> NoNewline(Lines(s)[k])
    decreases |s|
  {
    if s != [] {
      var i := NewlineIndex(s);
      if i < |s| {
        var line := StripCR(s[..i]);
        assert NoNewline(line) by {
          forall j | 0 <= j < |line| ensures line[j] != '\n' {
            assert line[j] == s[j];
          }
        }
        LinesNoNewline(s[i + 1..]);
        var ls := Lines(s);
        assert ls == [line] + Lines(s[i + 1..]);
        forall k | 0 <= k < |ls| ensures NoNewline(ls[k]) {
          if k > 0 { assert ls[k] == Lines(s[i + 1..])[k - 1]; }
        }
      }
    }
  }

  predicate NoNewline(s: string) {
    forall j :: 0 <= j < |s| ==> s[j] != '\n'
  }

  /** An entry `load_peers` can produce, and `save_peers` writes back unchanged:
      non-empty, already trimmed, no newline. */
  predicate PeerLine(p: string) {
    p != [] && Trim(p) == p && NoNewline(p)
  }

  /** Trims each line and drops the ones left empty, keeping line order. */
  function CleanLines(ls: seq<string>): (r: seq<string>)
    ensures |r| <= |ls|
    decreases |ls|
  {
    if ls == [] then []
    else
      var t := Trim(ls[0]);
      var rest := CleanLines(ls[1..]);
      if t == [] then rest else [t] + rest
  }

  /** Trimming never introduces a newline. */
  lemma TrimNoNewline(s: string)
    requires NoNewline(s)
    ensures NoNewline(Trim(s))
  {
    var r := Trim(s);
    forall j | 0 <= j < |r| ensures r[j] != '\n' {
      TrimChars(s, j);
    }
  }

  /** Cleaning newline-free lines gives well-formed peer lines. */
  lemma {:induction false} CleanLinesWellFormed(ls: seq<string>)
    requires forall k :: 0 <= k < |ls| ==> NoNewline(ls[k])
    ensures forall k :: 0 <= k < |CleanLines(ls)| ==> PeerLine(CleanLines(ls)[k])
    decreases |ls|
  {
    if ls != [] {
      CleanLinesWellFormed(ls[1..]);
      var t := Trim(ls[0]);
      var rest := CleanLines(ls[1..]);
      if t != [] {
        TrimIdempotent(ls[0]);
        TrimNoNewline(ls[0]);
        assert PeerLine(t);
        var r := [t] + rest;
        assert CleanLines(ls) == r;
        forall k | 0 <= k < |r| ensures PeerLine(r[k]) {
          if k > 0 { assert r[k] == rest[k - 1]; }
        }
      } else {
        assert CleanLines(ls) == rest;
      }
    }
  }

  /** The parse half of `load_peers`: lines, trimmed, blanks dropped. Every entry it
      yields is a well-formed peer line. */
  function Parse(content: string): (peers: seq<string>)
    ensures forall k :: 0 <= k < |peers| ==> PeerLine(peers[k])
  {
    LinesNoNewline(content);
    CleanLinesWellFormed(Lines(content));
    CleanLines(Lines(content))
  }

  /** `load_peers`: a missing or unreadable file gives no peers. */
  function LoadPeers(file: Option<string>): (peers: seq<string>)
    ensures file.None? ==> peers == []
    ensures forall k :: 0 <= k < |peers| ==> PeerLine(peers[k])
    ensures file.Some? ==> peers == Parse(file.value)
  {
    match file
    case None => []
    case Some(content) => Parse(content)
  }

  /** A single peer is written as exactly its own line. */
  lemma SerialiseOne(p: string)
    ensures Serialise([p]) == p + "\n"
  {
    assert [p][1..] == [];
  }

  /** Saving a concatenation writes the first list's lines and then the second's. */
  lemma {:induction false} SerialiseAppend(a: seq<string>, b: seq<string>)
    ensures Serialise(a + b) == Serialise(a) + Serialise(b)
    decreases |a|
  {
    if a == [] {
      assert a + b == b;
    } else {
      assert (a + b)[0] == a[0];
      assert (a + b)[1..] == a[1..] + b;
      SerialiseAppend(a[1..], b);
    }
  }

  /** The first line of a serialised list is its first peer. */
  lemma SerialiseHead(p: string, rest: seq<string>)
    requires PeerLine(p)
    ensures var s := p + "\n" + Serialise(rest);
            NewlineIndex(s) == |p| && s[..|p|] == p && s[|p| + 1..] == Serialise(rest)
            && StripCR(p) == p
  {
    var s := p + "\n" + Serialise(rest);
    var i := NewlineIndex(s);
    assert s[|p|] == '\n';
    assert forall j :: 0 <= j < |p| ==> s[j] == p[j];
    assert s[..|p|] == p;
    assert s[|p| + 1..] == Serialise(rest);
  }

  /** Round trip: well-formed peers are read back exactly as written, in order. */
  lemma {:induction false} ParseSerialise(peers: seq<string>)
    requires forall k :: 0 <= k < |peers| ==> PeerLine(peers[k])
    ensures Parse(Serialise(peers)) == peers
    decreases |peers|
  {
    if peers != [] {
      var p := peers[0];
      var s := Serialise(peers);
      assert s == p + "\n" + Serialise(peers[1..]);
      SerialiseHead(p, peers[1..]);
      assert Lines(s) == [p] + Lines(Serialise(peers[1..]));
      ParseSerialise(peers[1..]);
      assert ([p] + Lines(Serialise(peers[1..])))[1..] == Lines(Serialise(peers[1..]));
    }
  }

  /** Loading what was saved from a load gives the same list, whatever the file held. */
  lemma ParseStable(content: string)
    ensures Parse(Serialise(Parse(content))) == Parse(content)
  {
    ParseSerialise(Parse(content));
  }

  /** Cleaning distributes over concatenation of line lists. */
  lemma {:induction false} CleanLinesAppend(a: seq<string>, b: seq<string>)
    ensures CleanLines(a + b) == CleanLines(a) + CleanLines(b)
    decreases |a|
  {
    if a != [] {
      assert (a + b)[0] == a[0];
      assert (a + b)[1..] == a[1..] + b;
      CleanLinesAppend(a[1..], b);
    } else {
      assert a + b == b;
    }
  }

  /** A newline inside `a` is the first newline of `a + b` too. */
  lemma NewlineIndexAppend(a: string, b: string)
    requires NewlineIndex(a) < |a|
    ensures NewlineIndex(a + b) == NewlineIndex(a)
  {
    var i := NewlineIndex(a);
    var k := NewlineIndex(a + b);
    assert (a + b)[i] == '\n';
    assert k <= i;
    if k < i {
      assert (a + b)[k] == a[k];
    }
  }

  /** The first line of `a + b` is the first line of `a` when `a` holds a newline: both
      split into that line `f` and what follows it. */
  lemma LinesAppendStep(a: string, b: string) returns (f: seq<string>, rest: string)
    requires NewlineIndex(a) < |a|
    ensures rest == a[NewlineIndex(a) + 1..]
    ensures Lines(a) == f + Lines(rest)
    ensures Lines(a + b) == f + Lines(rest + b)
  {
    var i := NewlineIndex(a);
    NewlineIndexAppend(a, b);
    assert (a + b)[..i] == a[..i];
    assert (a + b)[i + 1..] == a[i + 1..] + b;
    f, rest := [StripCR(a[..i])], a[i + 1..];
  }

  /** Content ending in a newline has a first newline, and the rest after it is empty or
      again ends in a newline. */
  lemma RestAfterNewline(a: string) returns (rest: string)
    requires a != [] && a[|a| - 1] == '\n'
    ensures NewlineIndex(a) < |a| && rest == a[NewlineIndex(a) + 1..]
    ensures |rest| < |a| && (rest == [] || rest[|rest| - 1] == '\n')
  {
    var i := NewlineIndex(a);
    assert a[|a| - 1] == '\n';
    assert i < |a|;
    rest := a[i + 1..];
    if rest != [] {
      assert rest[|rest| - 1] == a[|a| - 1];
    }
  }

  /** Splitting at a line boundary: the lines of `a + b` are those of `a` followed by
      those of `b` when `a` ends with a newline. */
  lemma {:induction false} LinesAppend(a: string, b: string)
    requires a == [] || a[|a| - 1] == '\n'
    ensures Lines(a + b) == Lines(a) + Lines(b)
    decreases |a|
  {
    if a == [] {
      assert a + b == b;
    } else {
      var rest := RestAfterNewline(a);
      LinesAppend(rest, b);
      LinesAppendCons(a, b, rest);
    }
  }

  /** The inductive step of `LinesAppend`: the first line of `a` is split off, and the
      rest of `a` already splits. */
  lemma LinesAppendCons(a: string, b: string, rest: string)
    requires NewlineIndex(a) < |a| && rest == a[NewlineIndex(a) + 1..]
    requires Lines(rest + b) == Lines(rest) + Lines(b)
    ensures Lines(a + b) == Lines(a) + Lines(b)
  {
    var f, rest' := LinesAppendStep(a, b);
    CombineSteps(Lines(a), Lines(a + b), f, Lines(rest), Lines(rest + b), Lines(b));
  }

  /** The equational step of an induction over a shared first part: if `x` is `f` then
      `r`, and `y` is `f` then `r` followed by `w`, then `y` is `x` followed by `w`. */
  lemma CombineSteps<T>(x: seq<T>, y: seq<T>, f: seq<T>, r: seq<T>, rw: seq<T>, w: seq<T>)
    requires x == f + r && y == f + rw && rw == r + w
    ensures y == x + w
  {
    assert f + (r + w) == (f + r) + w;
  }

  /** Parsed entries keep file order: content split at a line boundary parses to the
      entries of the first part followed by those of the second. */
  lemma ParseAppend(a: string, b: string)
    requires a == [] || a[|a| - 1] == '\n'
    ensures Parse(a + b) == Parse(a) + Parse(b)
  {
    LinesAppend(a, b);
    CleanLinesAppend(Lines(a), Lines(b));
  }

  /** Blank and whitespace-only lines are dropped. */
  lemma BlankLinesDropped(blank: string, rest: string)
    requires Blank(blank) && NoNewline(blank)
    ensures Parse(blank + "\n" + rest) == Parse(rest)
  {
    var s := blank + "\n" + rest;
    assert s == (blank + "\n") + rest;
    ParseAppend(blank + "\n", rest);
    var a := blank + "\n";
    var i := NewlineIndex(a);
    assert a[|blank|] == '\n';
    assert forall j :: 0 <= j < |blank| ==> a[j] == blank[j];
    assert a[..i] == blank;
    assert a[i + 1..] == [];
    var line := StripCR(blank);
    assert Blank(line) by {
      forall j | 0 <= j < |line| ensures IsWhitespace(line[j]) { assert line[j] == blank[j]; }
    }
    TrimEmptyIffBlank(line);
    assert Lines(a) == [line];
  }

  /** A newline-free line followed by a line feed is one line, with a carriage return
      before the feed dropped. */
  lemma LinesOfOneLine(l: string)
    requires NoNewline(l)
    ensures Lines(l + "\n") == [StripCR(l)]
  {
    var a := l + "\n";
    assert a[|l|] == '\n';
    assert forall j :: 0 <= j < |l| ==> a[j] == l[j];
    assert NewlineIndex(a) == |l|;
    assert a[..|l|] == l;
    assert a[|l| + 1..] == [];
  }

  /** Dropping the carriage return does not change a line's trim. */
  lemma TrimStripCR(l: string)
    ensures Trim(StripCR(l)) == Trim(l)
  {
    if StripCR(l) != l {
      TrimDropTrailingWs(l);
    }
  }

  /** One saved line loads as its trimmed text, and a blank line as nothing. */
  lemma ParseLine(l: string)
    requires NoNewline(l)
    ensures Parse(l + "\n") == (if Blank(l) then [] else [Trim(l)])
  {
    LinesOfOneLine(l);
    TrimStripCR(l);
    TrimEmptyIffBlank(l);
    var ls := [StripCR(l)];
    assert ls[1..] == [];
    assert CleanLines(ls) == (if Trim(l) == [] then [] else [Trim(l)]);
  }

  /** A last line without a line ending still loads: as its trimmed text, or as nothing
      when blank. With `ParseAppend` and `ParseLine` this fixes the parse of every file. */
  lemma ParseLastLine(l: string)
    requires NoNewline(l)
    ensures Parse(l) == (if Blank(l) then [] else [Trim(l)])
  {
    TrimEmptyIffBlank(l);
    if l != [] {
      assert NewlineIndex(l) == |l|;
      assert Lines(l) == [l];
      assert [l][1..] == [];
    }
  }

  /** `load_chain` feeding the server's start-up: a missing or undecodable chain file
      gives a fresh genesis chain, and a decoded one is adopted as it is. */
  function StartupChain(sha: Sha256, loaded: Option<Chain>): (c: Chain)
    ensures loaded.None? ==> c == NewChain(sha) && ValidChain(sha, c)
    ensures loaded.Some? ==> c == loaded.value
  {
    loaded.GetOr(NewChain(sha))
  }

  /** A chain file that decodes to an empty block list is adopted, leaving a chain whose
      tip is undefined. */
  lemma StartupAdoptsEmptyChain(sha: Sha256)
    ensures StartupChain(sha, Some([])) == []
  {
  }
}
