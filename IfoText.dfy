/** The `.ifo` metadata parse shared by `Dictionary.loadIfo` (lib/dict.js) and
    `loadIfo` (lib/stardict.js): `text.match(/^.+=.+$/gm)` picks every line
    holding an '=' with at least one character on each side, the second regex
    `^(?<name>.+)=(?<value>.+)$` splits it at its last such '=', and a reduce
    with object spread builds the map, a later key overwriting an earlier one. */
module IfoText {

  /** The characters JavaScript regular expressions treat as line ends:
      `.` does not match them and, under the `m` flag, `^` and `$` match
      next to them. */
  predicate IsLineTerminator(c: char)
  {
    c == '\n' || c == '\r' || c == '\U{2028}' || c == '\U{2029}'
  }

  predicate NoTerminator(s: string)
  {
    forall i :: 0 <= i < |s| ==> !IsLineTerminator(s[i])
  }

  /** The lines of `text`, in order: the maximal runs of characters between
      line terminators, empty ones included. */
  function Lines(text: string): (r: seq<string>)
    ensures |r| >= 1
    ensures forall i :: 0 <= i < |r| ==> NoTerminator(r[i])
  {
    if text == [] then [""]
    else
      var rest := Lines(text[1..]);
      if IsLineTerminator(text[0]) then [""] + rest
      else [[text[0]] + rest[0]] + rest[1..]
  }

  /** Lines written one after the other, each ended by "\n" but the last. */
  function JoinLines(lines: seq<string>): string
    requires |lines| >= 1
  {
    if |lines| == 1 then lines[0] else lines[0] + "\n" + JoinLines(lines[1..])
  }

  lemma {:induction false} LinesPrefix(w: string, s: string)
    requires NoTerminator(w)
    ensures Lines(w + s) == [w + Lines(s)[0]] + Lines(s)[1..]
  {
    if w != [] {
      assert (w + s)[0] == w[0] && (w + s)[1..] == w[1..] + s;
      LinesPrefix(w[1..], s);
      var r := Lines(w[1..] + s);
      assert r[0] == w[1..] + Lines(s)[0] && r[1..] == Lines(s)[1..];
      assert !IsLineTerminator(w[0]);
      assert Lines(w + s) == [[w[0]] + r[0]] + r[1..];
      assert [w[0]] + (w[1..] + Lines(s)[0]) == w + Lines(s)[0];
    } else {
      assert w + s == s && w + Lines(s)[0] == Lines(s)[0];
      assert Lines(s) == [Lines(s)[0]] + Lines(s)[1..];
    }
  }

  /** Splitting at line ends undoes joining with "\n". */
  lemma {:induction false} LinesOfJoin(lines: seq<string>)
    requires |lines| >= 1
    requires forall i :: 0 <= i < |lines| ==> NoTerminator(lines[i])
    ensures Lines(JoinLines(lines)) == lines
  {
    if |lines| == 1 {
      LinesPrefix(lines[0], "");
      assert lines[0] + "" == lines[0];
    } else {
      var rest := JoinLines(lines[1..]);
      LinesOfJoin(lines[1..]);
      assert lines[0] + "\n" + rest == lines[0] + ("\n" + rest);
      LinesPrefix(lines[0], "\n" + rest);
      assert ("\n" + rest)[1..] == rest;
      assert lines[0] + "" == lines[0];
      assert lines == [lines[0]] + lines[1..];
    }
  }

  /** The index of the last '=' in `s`, or -1 when there is none. */
  function LastEq(s: string): (k: int)
    ensures -1 <= k < |s|
    ensures k >= 0 ==> s[k] == '='
    ensures forall j :: k < j < |s| ==> s[j] != '='
  {
    if s == [] then -1
    else if s[|s| - 1] == '=' then |s| - 1
    else LastEq(s[..|s| - 1])
  }

  /** The line (which holds no line terminator) matches `^.+=.+$`. */
  predicate Matches(line: string)
  {
    |line| >= 3 && LastEq(line[1..|line| - 1]) >= 0
  }

  /** A line matches exactly when some '=' has a character on each side. */
  lemma MatchesIff(line: string)
    ensures Matches(line) <==> exists k :: 1 <= k < |line| - 1 && line[k] == '='
  {
    if k :| 1 <= k < |line| - 1 && line[k] == '=' {
      assert line[1..|line| - 1][k - 1] == '=';
    }
  }

  /** `line.match(/^(?<name>.+)=(?<value>.+)$/).groups`: the greedy name runs up
      to the last '=' that still leaves a non-empty value, so the value holds
      no '=' except possibly as its last character. */
  function SplitPair(line: string): (p: (string, string))
    requires Matches(line)
    ensures |p.0| >= 1 && |p.1| >= 1
    ensures line == p.0 + "=" + p.1
    ensures forall j :: 0 <= j < |p.1| - 1 ==> p.1[j] != '='
  {
    var k := 1 + LastEq(line[1..|line| - 1]);
    assert forall j :: k < j < |line| - 1 ==> line[1..|line| - 1][j - 1] == line[j];
    (line[..k], line[k + 1..])
  }

  /** The split is the only one with those properties: `name=value` with a
      non-empty name and a value free of '=' before its last character is
      read back as exactly that name and value. */
  lemma SplitPairOf(name: string, value: string)
    requires |name| >= 1 && |value| >= 1
    requires forall j :: 0 <= j < |value| - 1 ==> value[j] != '='
    ensures Matches(name + "=" + value)
    ensures SplitPair(name + "=" + value) == (name, value)
  {
    var line := name + "=" + value;
    var mid := line[1..|line| - 1];
    assert mid[|name| - 1] == '=';
    assert line[..|name|] == name && line[|name| + 1..] == value;
  }

  /** The greedy name: `a=b=c` gives name `a=b` and value `c`, while `a=b=`
      gives name `a` and value `b=`. */
  lemma GreedyNameExamples()
    ensures SplitPair("a=b=c") == ("a=b", "c")
    ensures SplitPair("a=b=") == ("a", "b=")
    ensures !Matches("=b") && !Matches("a=") && !Matches("[Dictionary]")
  {
    SplitPairOf("a=b", "c");
    assert "a=b" + "=" + "c" == "a=b=c";
    SplitPairOf("a", "b=");
    assert "a" + "=" + "b=" == "a=b=";
    MatchesIff("=b");
    MatchesIff("a=");
    MatchesIff("[Dictionary]");
  }

  /** The name/value pairs of the matching lines, in order. */
  function PairsOf(lines: seq<string>): (r: seq<(string, string)>)
    ensures |r| <= |lines|
    ensures forall i :: 0 <= i < |r| ==> |r[i].0| >= 1 && |r[i].1| >= 1
  {
    if lines == [] then []
    else
      var last := lines[|lines| - 1];
      PairsOf(lines[..|lines| - 1]) + (if Matches(last) then [SplitPair(last)] else [])
  }

  lemma {:induction false} PairsOfAppend(a: seq<string>, b: seq<string>)
    ensures PairsOf(a + b) == PairsOf(a) + PairsOf(b)
  {
    if b != [] {
      var b' := b[..|b| - 1];
      assert (a + b)[..|a + b| - 1] == a + b';
      PairsOfAppend(a, b');
    } else {
      assert a + b == a;
    }
  }

  /** `_.reduce(pairs, (acc, p) => ({ ...acc, [p.name]: p.value }), {})`:
      every key comes from some pair. */
  function Fold(ps: seq<(string, string)>): (m: map<string, string>)
    ensures forall k :: k in m ==> exists j :: 0 <= j < |ps| && ps[j] == (k, m[k])
  {
    if ps == [] then map[]
    else
      var last := ps[|ps| - 1];
      var m0 := Fold(ps[..|ps| - 1]);
      assert forall j :: 0 <= j < |ps| - 1 ==> ps[..|ps| - 1][j] == ps[j];
      m0[last.0 := last.1]
  }

  /** Last write wins: a key is present exactly when some pair names it, and
      its value is that of the last pair naming it. */
  lemma {:induction false} FoldLastWins(ps: seq<(string, string)>, k: string, j: nat)
    requires j < |ps| && ps[j].0 == k
    requires forall i :: j < i < |ps| ==> ps[i].0 != k
    ensures k in Fold(ps) && Fold(ps)[k] == ps[j].1
  {
    var init := ps[..|ps| - 1];
    if j < |ps| - 1 {
      assert forall i :: j < i < |init| ==> init[i] == ps[i];
      FoldLastWins(init, k, j);
    }
  }

  lemma {:induction false} FoldKeys(ps: seq<(string, string)>, k: string)
    ensures k in Fold(ps) <==> exists j :: 0 <= j < |ps| && ps[j].0 == k
  {
    if ps != [] {
      var init := ps[..|ps| - 1];
      FoldKeys(init, k);
      if exists j :: 0 <= j < |ps| && ps[j].0 == k {
        var j :| 0 <= j < |ps| && ps[j].0 == k;
        if j < |ps| - 1 {
          assert init[j].0 == k;
        }
      }
    }
  }

  /** The `.ifo` map of `text`, without numeric coercion: every key and every
      value is a non-empty string, so `value && parseInt(value, 10)` never
      short-circuits on it. */
  function ParseIfo(text: string): (m: map<string, string>)
    ensures forall k :: k in m ==> |k| >= 1 && |m[k]| >= 1
  {
    Fold(PairsOf(Lines(text)))
  }

  /** Reading one more line: a matching line sets its name to its value,
      replacing any earlier value; any other line leaves the map as it was. */
  lemma ParseIfoAppendLine(lines: seq<string>, line: string)
    requires |lines| >= 1
    requires forall i :: 0 <= i < |lines| ==> NoTerminator(lines[i])
    requires NoTerminator(line)
    ensures var before := ParseIfo(JoinLines(lines));
      ParseIfo(JoinLines(lines + [line])) ==
        if Matches(line) then before[SplitPair(line).0 := SplitPair(line).1] else before
  {
    var all := lines + [line];
    LinesOfJoin(lines);
    LinesOfJoin(all);
    assert ParseIfo(JoinLines(all)) == Fold(PairsOf(all));
    assert all[..|all| - 1] == lines;
    var ps := PairsOf(lines);
    if Matches(line) {
      assert PairsOf(all) == ps + [SplitPair(line)];
      assert (ps + [SplitPair(line)])[..|ps|] == ps;
    } else {
      assert PairsOf(all) == ps;
    }
  }
}
