/** Option parsing over a whole argument vector, without positions, and the printing of options. */
module GetOptSpec {

  import opened Basics

  /** What optstring says of a character: not an option, an option alone, an option with an argument. */
  datatype Arity = Unknown | Flag | WithArg

  /** The index of the first occurrence, or |s|: strchr. */
  function IndexOf(s: string, c: char): (k: nat)
    ensures k <= |s| && (k < |s| ==> s[k] == c) && forall j :: 0 <= j < k ==> s[j] != c
  {
    if s == [] || s[0] == c then 0 else 1 + IndexOf(s[1..], c)
  }

  /** c is at position k of optstring and not before. */
  predicate FirstAt(optstring: string, c: char, k: nat) {
    k < |optstring| && optstring[k] == c && forall j :: 0 <= j < k ==> optstring[j] != c
  }

  /** The first occurrence of c is followed by a colon. */
  predicate TakesArg(optstring: string, c: char) {
    c != ':' && exists k :: 0 <= k < |optstring| - 1 && FirstAt(optstring, c, k) && optstring[k + 1] == ':'
  }

  predicate IsFlag(optstring: string, c: char) {
    c != ':' && c in optstring && !TakesArg(optstring, c)
  }

  function ArityOf(optstring: string, c: char): (a: Arity)
    ensures a == WithArg <==> TakesArg(optstring, c)
    ensures a == Flag <==> IsFlag(optstring, c)
    ensures a == Unknown <==> c == ':' || c !in optstring
  {
    var k := IndexOf(optstring, c);
    assert k < |optstring| ==> FirstAt(optstring, c, k);
    assert forall i :: FirstAt(optstring, c, i) ==> i == k;
    if c == ':' || k == |optstring| then Unknown
    else if k + 1 < |optstring| && optstring[k + 1] == ':' then WithArg
    else Flag
  }

  /** A character other than the colon, first found at position k, takes an argument exactly when a colon follows there. */
  lemma ArityAt(optstring: string, c: char, k: nat)
    requires c != ':' && FirstAt(optstring, c, k)
    ensures ArityOf(optstring, c) == if k + 1 < |optstring| && optstring[k + 1] == ':' then WithArg else Flag
    ensures TakesArg(optstring, c) <==> k + 1 < |optstring| && optstring[k + 1] == ':'
    ensures IsFlag(optstring, c) <==> !(k + 1 < |optstring| && optstring[k + 1] == ':')
  {
    var a := ArityOf(optstring, c);
    assert forall i :: FirstAt(optstring, c, i) ==> i == k;
  }

  /** One call that does not return EOF: the returned character and optarg afterwards. */
  datatype Result = Result(ret: char, optarg: Option<string>)

  /** All the results up to EOF, and how many words they used up. */
  datatype Parsed = Parsed(results: seq<Result>, used: nat)

  function Emit(r: Result, p: Parsed): Parsed {
    Parsed([r] + p.results, p.used)
  }

  function Skip(n: nat, p: Parsed): Parsed {
    Parsed(p.results, n + p.used)
  }

  /** A word that starts with a dash, is longer than the dash and is not two dashes. */
  predicate IsOptionWord(w: string) {
    |w| >= 2 && w[0] == '-' && w != "--"
  }

  /** Parses words up to the first operand. `last` is optarg before, which an unknown option leaves alone. */
  function ParseWords(words: seq<string>, optstring: string, last: Option<string>): (p: Parsed)
    ensures p.used <= |words|
    decreases |words|, 1, 0
  {
    if words == [] || !IsOptionWord(words[0]) then Parsed([], 0)
    else ParseCluster(words[0][1..], words, optstring, last)
  }

  /** Parses what remains of the first word, then the other words. */
  function ParseCluster(cluster: string, words: seq<string>, optstring: string, last: Option<string>): (p: Parsed)
    requires words != []
    ensures p.used <= |words|
    decreases |words|, 0, |cluster|
  {
    if cluster == [] then Skip(1, ParseWords(words[1..], optstring, last))
    else
      var c := cluster[0];
      match ArityOf(optstring, c)
      case Unknown => Emit(Result('?', last), ParseCluster(cluster[1..], words, optstring, last))
      case Flag => Emit(Result(c, None), ParseCluster(cluster[1..], words, optstring, None))
      case WithArg =>
        if |cluster| > 1 then
          var arg := Some(cluster[1..]);
          Emit(Result(c, arg), Skip(1, ParseWords(words[1..], optstring, arg)))
        else if |words| == 1 then Emit(Result('?', None), Parsed([], 1))
        else
          var arg := Some(words[1]);
          Emit(Result(c, arg), Skip(2, ParseWords(words[2..], optstring, arg)))
  }

  // ---------------------------------------------------------------- printing

  /** A group of options for one word: flags, and perhaps an option with an argument at the end, attached or as a word of
      its own. */
  datatype Group = Flags(flags: string) | Ending(flags: string, c: char, arg: string, attached: bool)

  /** The group can be printed: its characters have the right arity, it is not empty, an attached argument is not empty,
      and the word does not come out as two dashes. */
  predicate Printable(g: Group, optstring: string) {
    && (forall k :: 0 <= k < |g.flags| ==> IsFlag(optstring, g.flags[k]))
    && match g
       case Flags(fs) => fs != [] && fs != "-"
       case Ending(fs, c, arg, attached) =>
         TakesArg(optstring, c) && (attached ==> arg != []) && (fs == [] && !attached ==> c != '-')
  }

  function PrintGroup(g: Group): seq<string> {
    match g
    case Flags(fs) => ["-" + fs]
    case Ending(fs, c, arg, attached) => if attached then ["-" + fs + [c] + arg] else ["-" + fs + [c], arg]
  }

  function Print(gs: seq<Group>): seq<string> {
    if gs == [] then [] else PrintGroup(gs[0]) + Print(gs[1..])
  }

  function FlagResults(fs: string): seq<Result> {
    if fs == [] then [] else [Result(fs[0], None)] + FlagResults(fs[1..])
  }

  function GroupResults(g: Group): seq<Result> {
    match g
    case Flags(fs) => FlagResults(fs)
    case Ending(fs, c, arg, _) => FlagResults(fs) + [Result(c, Some(arg))]
  }

  function Meaning(gs: seq<Group>): seq<Result> {
    if gs == [] then [] else GroupResults(gs[0]) + Meaning(gs[1..])
  }

  /** optarg after a list of results. */
  function LastArg(rs: seq<Result>, last: Option<string>): Option<string> {
    if rs == [] then last else rs[|rs| - 1].optarg
  }

  function Prepend(rs: seq<Result>, p: Parsed): Parsed {
    Parsed(rs + p.results, p.used)
  }

  lemma {:induction false} ParseFlags(fs: string, tail: string, words: seq<string>, optstring: string, last: Option<string>)
    requires words != [] && forall k :: 0 <= k < |fs| ==> ArityOf(optstring, fs[k]) == Flag
    ensures ParseCluster(fs + tail, words, optstring, last) ==
            Prepend(FlagResults(fs), ParseCluster(tail, words, optstring, if fs == [] then last else None))
    decreases |fs|
  {
    hide ArityOf, TakesArg, IsFlag, ParseWords;
    if fs == [] {
      assert fs + tail == tail;
    } else {
      assert (fs + tail)[0] == fs[0] && (fs + tail)[1..] == fs[1..] + tail;
      ParseFlags(fs[1..], tail, words, optstring, None);
    }
  }

  lemma {:induction false} FlagResultsLast(fs: string, last: Option<string>)
    ensures LastArg(FlagResults(fs), last) == if fs == [] then last else None
    decreases |fs|
  {
    if |fs| > 1 {
      FlagResultsLast(fs[1..], last);
    }
  }

  /** A word of flags parses to their results, whatever words follow. */
  lemma ParseFlagWord(fs: string, rest: seq<string>, optstring: string, last: Option<string>)
    requires Printable(Flags(fs), optstring)
    ensures ParseWords(["-" + fs] + rest, optstring, last) ==
            Prepend(FlagResults(fs), Skip(1, ParseWords(rest, optstring, None)))
  {
    hide ArityOf, TakesArg, IsFlag, FlagResults;
    var words := ["-" + fs] + rest;
    assert words[1..] == rest && words[0][1..] == fs + [] && words[0][1] == fs[0];
    ParseFlags(fs, [], words, optstring, last);
  }

  lemma ParseAttached(fs: string, c: char, arg: string, rest: seq<string>, optstring: string, last: Option<string>)
    requires Printable(Ending(fs, c, arg, true), optstring)
    ensures ParseWords(["-" + fs + [c] + arg] + rest, optstring, last) ==
            Prepend(FlagResults(fs), Emit(Result(c, Some(arg)), Skip(1, ParseWords(rest, optstring, Some(arg)))))
  {
    hide ArityOf, TakesArg, IsFlag, FlagResults;
    var words, tail := ["-" + fs + [c] + arg] + rest, [c] + arg;
    assert words[1..] == rest && words[0][1..] == fs + tail && |words[0]| >= 3;
    ParseFlags(fs, tail, words, optstring, last);
    assert tail[0] == c && tail[1..] == arg;
  }

  lemma ParseSeparate(fs: string, c: char, arg: string, rest: seq<string>, optstring: string, last: Option<string>)
    requires Printable(Ending(fs, c, arg, false), optstring)
    ensures ParseWords(["-" + fs + [c], arg] + rest, optstring, last) ==
            Prepend(FlagResults(fs), Emit(Result(c, Some(arg)), Skip(2, ParseWords(rest, optstring, Some(arg)))))
  {
    hide ArityOf, TakesArg, IsFlag, FlagResults;
    var words, tail := ["-" + fs + [c], arg] + rest, [c];
    assert words[2..] == rest && words[0][1..] == fs + tail && words[1] == arg && |words| >= 2;
    assert fs == [] ==> words[0][1] == c;
    ParseFlags(fs, tail, words, optstring, last);
  }

  lemma NotEmpty(g: Group, optstring: string)
    requires Printable(g, optstring) && g.Flags?
    ensures g.flags != []
  {
  }

  lemma PrependEmit(rs: seq<Result>, r: Result, p: Parsed)
    ensures Prepend(rs, Emit(r, p)) == Prepend(rs + [r], p)
  {
    assert rs + ([r] + p.results) == (rs + [r]) + p.results;
  }

  /** A printed group parses to its results, whatever words follow. */
  lemma ParseGroup(g: Group, rest: seq<string>, optstring: string, last: Option<string>)
    requires Printable(g, optstring)
    ensures ParseWords(PrintGroup(g) + rest, optstring, last) ==
            Prepend(GroupResults(g), Skip(|PrintGroup(g)|, ParseWords(rest, optstring, LastArg(GroupResults(g), last))))
  {
    hide ParseWords, FlagResults, Printable;
    FlagResultsLast(g.flags, last);
    match g {
      case Flags(fs) =>
        NotEmpty(g, optstring);
        ParseFlagWord(fs, rest, optstring, last);
      case Ending(fs, c, arg, attached) =>
        var arg' := Some(arg);
        var r := FlagResults(fs) + [Result(c, arg')];
        assert LastArg(r, last) == arg';
        if attached {
          ParseAttached(fs, c, arg, rest, optstring, last);
          PrependEmit(FlagResults(fs), Result(c, arg'), Skip(1, ParseWords(rest, optstring, arg')));
        } else {
          ParseSeparate(fs, c, arg, rest, optstring, last);
          PrependEmit(FlagResults(fs), Result(c, arg'), Skip(2, ParseWords(rest, optstring, arg')));
        }
    }
  }

  lemma {:induction false} UsesAWord(cluster: string, words: seq<string>, optstring: string, last: Option<string>)
    requires words != []
    ensures ParseCluster(cluster, words, optstring, last).used > 0
    decreases |cluster|
  {
    hide ArityOf, TakesArg, IsFlag, ParseWords;
    if cluster != [] {
      UsesAWord(cluster[1..], words, optstring, last);
      UsesAWord(cluster[1..], words, optstring, None);
    }
  }

  /** No word, or one that does not start with a dash, or a single dash, or two dashes. */
  predicate Stops(words: seq<string>) {
    words == [] || words[0] == "" || words[0][0] != '-' || words[0] == "-" || words[0] == "--"
  }

  /** Parsing stops there and nowhere else. */
  lemma StopAt(words: seq<string>, optstring: string, last: Option<string>)
    ensures Stops(words) ==> ParseWords(words, optstring, last) == Parsed([], 0)
    ensures !Stops(words) ==> ParseWords(words, optstring, last).used > 0 && IsOptionWord(words[0])
    ensures Stops(words) && words != [] ==> !IsOptionWord(words[0])
  {
    if !Stops(words) {
      UsesAWord(words[0][1..], words, optstring, last);
    }
  }

  /** Print, then parse: any list of printable groups comes back, and parsing stops at the first operand. */
  lemma {:induction false} RoundTrip(gs: seq<Group>, operands: seq<string>, optstring: string, last: Option<string>)
    requires forall k :: 0 <= k < |gs| ==> Printable(gs[k], optstring)
    requires Stops(operands)
    ensures ParseWords(Print(gs) + operands, optstring, last) == Parsed(Meaning(gs), |Print(gs)|)
    decreases |gs|
  {
    hide Printable, PrintGroup, GroupResults, IsOptionWord, LastArg;
    if gs == [] {
      assert Print(gs) + operands == operands;
      StopAt(operands, optstring, last);
    } else {
      var rest := Print(gs[1..]) + operands;
      assert Print(gs) + operands == PrintGroup(gs[0]) + rest;
      ParseGroup(gs[0], rest, optstring, last);
      RoundTrip(gs[1..], operands, optstring, LastArg(GroupResults(gs[0]), last));
    }
  }

  /** How options are spread over words does not matter: groups with the same meaning parse to the same results. */
  lemma SpreadingIsFree(gs: seq<Group>, hs: seq<Group>, operands: seq<string>, optstring: string, last: Option<string>)
    requires forall k :: 0 <= k < |gs| ==> Printable(gs[k], optstring)
    requires forall k :: 0 <= k < |hs| ==> Printable(hs[k], optstring)
    requires Stops(operands)
    requires Meaning(gs) == Meaning(hs)
    ensures ParseWords(Print(gs) + operands, optstring, last).results == ParseWords(Print(hs) + operands, optstring, last).results
  {
    hide Printable, Print, Meaning, IsOptionWord, ParseWords;
    RoundTrip(gs, operands, optstring, last);
    RoundTrip(hs, operands, optstring, last);
  }

  /** One word for each flag. */
  function OneByOne(fs: string): seq<Group> {
    if fs == [] then [] else [Flags([fs[0]])] + OneByOne(fs[1..])
  }

  lemma {:induction false} OneByOneMeaning(fs: string)
    ensures Meaning(OneByOne(fs)) == FlagResults(fs)
    decreases |fs|
  {
    if fs != [] {
      OneByOneMeaning(fs[1..]);
      assert FlagResults([fs[0]]) == [Result(fs[0], None)] + FlagResults([]);
      assert OneByOne(fs)[1..] == OneByOne(fs[1..]);
    }
  }

  lemma {:induction false} OneByOnePrintable(fs: string, optstring: string)
    requires forall k :: 0 <= k < |fs| ==> IsFlag(optstring, fs[k]) && fs[k] != '-'
    ensures forall k :: 0 <= k < |OneByOne(fs)| ==> Printable(OneByOne(fs)[k], optstring)
    decreases |fs|
  {
    hide ArityOf, TakesArg, IsFlag;
    if fs != [] {
      OneByOnePrintable(fs[1..], optstring);
      assert [fs[0]][0] == fs[0];
    }
  }

  lemma SingleGroup(g: Group)
    ensures Print([g]) == PrintGroup(g) && Meaning([g]) == GroupResults(g)
  {
    assert [g][1..] == [] && Print([]) == [] && Meaning([]) == [];
  }

  /** -abc and -a -b -c are the same. */
  lemma ClusterOfFlags(fs: string, operands: seq<string>, optstring: string, last: Option<string>)
    requires fs != [] && forall k :: 0 <= k < |fs| ==> IsFlag(optstring, fs[k]) && fs[k] != '-'
    requires Stops(operands)
    ensures ParseWords(["-" + fs] + operands, optstring, last).results ==
            ParseWords(Print(OneByOne(fs)) + operands, optstring, last).results == FlagResults(fs)
  {
    hide ArityOf, TakesArg, IsFlag, ParseWords, OneByOne, IsOptionWord, Print, Meaning, FlagResults;
    var gs := [Flags(fs)];
    SingleGroup(Flags(fs));
    assert fs[0] != '-' && Printable(gs[0], optstring);
    OneByOneMeaning(fs);
    OneByOnePrintable(fs, optstring);
    RoundTrip(gs, operands, optstring, last);
    RoundTrip(OneByOne(fs), operands, optstring, last);
  }

  // ---------------------------------------------------------------- unknown letters and missing arguments

  predicate AnyFlag(fs: string, optstring: string) {
    exists k :: 0 <= k < |fs| && IsFlag(optstring, fs[k])
  }

  lemma AnyFlagCons(fs: string, i: nat, optstring: string)
    requires 0 < i <= |fs|
    ensures AnyFlag(fs[..i], optstring) <==> IsFlag(optstring, fs[0]) || AnyFlag(fs[1..][..i - 1], optstring)
  {
    hide IsFlag;
    var t := fs[..i];
    if IsFlag(optstring, fs[0]) {
      assert IsFlag(optstring, t[0]);
    }
    if AnyFlag(fs[1..][..i - 1], optstring) {
      var k :| 0 <= k < i - 1 && IsFlag(optstring, fs[1..][..i - 1][k]);
      assert IsFlag(optstring, t[k + 1]);
    }
    if AnyFlag(t, optstring) && !IsFlag(optstring, fs[0]) {
      var k :| 0 <= k < i && IsFlag(optstring, t[k]);
      assert IsFlag(optstring, fs[1..][..i - 1][k - 1]);
    }
  }

  /** What letter i of a cluster without arguments gives: a flag itself and no argument; any other '?', and optarg as the
      letters before it left it. */
  function LetterResult(fs: string, i: nat, optstring: string, last: Option<string>): Result
    requires i < |fs|
  {
    if IsFlag(optstring, fs[i]) then Result(fs[i], None)
    else Result('?', if AnyFlag(fs[..i], optstring) then None else last)
  }

  lemma LetterCons(fs: string, i: nat, optstring: string, last: Option<string>)
    requires 0 < i < |fs|
    ensures LetterResult(fs, i, optstring, last) ==
            LetterResult(fs[1..], i - 1, optstring, if IsFlag(optstring, fs[0]) then None else last)
  {
    hide IsFlag, AnyFlag;
    AnyFlagCons(fs, i, optstring);
  }

  lemma NoFlag(optstring: string)
    ensures !AnyFlag([], optstring)
  {
  }

  lemma FirstLetter(fs: string, words: seq<string>, optstring: string, last: Option<string>)
    requires words != [] && fs != [] && !TakesArg(optstring, fs[0])
    ensures ParseCluster(fs, words, optstring, last) ==
            Emit(LetterResult(fs, 0, optstring, last),
                 ParseCluster(fs[1..], words, optstring, if IsFlag(optstring, fs[0]) then None else last))
  {
    hide TakesArg, IsFlag, ParseWords;
    var a := ArityOf(optstring, fs[0]);
    assert !AnyFlag(fs[..0], optstring);
  }

  lemma {:induction false} ParseLetters(fs: string, words: seq<string>, optstring: string, last: Option<string>)
    requires words != [] && forall k :: 0 <= k < |fs| ==> !TakesArg(optstring, fs[k])
    ensures var p := ParseCluster(fs, words, optstring, last);
            var q := ParseWords(words[1..], optstring, if AnyFlag(fs, optstring) then None else last);
            && |p.results| == |fs| + |q.results| && p.used == 1 + q.used && p.results[|fs|..] == q.results
            && forall i :: 0 <= i < |fs| ==> p.results[i] == LetterResult(fs, i, optstring, last)
    decreases |fs|
  {
    hide ArityOf, TakesArg, IsFlag, AnyFlag, ParseWords, LetterResult;
    if fs == [] {
      NoFlag(optstring);
    } else {
      var after := if IsFlag(optstring, fs[0]) then None else last;
      FirstLetter(fs, words, optstring, last);
      ParseLetters(fs[1..], words, optstring, after);
      assert fs[..|fs|] == fs && fs[1..][..|fs| - 1] == fs[1..];
      AnyFlagCons(fs, |fs|, optstring);
      var p := ParseCluster(fs, words, optstring, last);
      forall i | 0 <= i < |fs| ensures p.results[i] == LetterResult(fs, i, optstring, last) {
        if i > 0 {
          LetterCons(fs, i, optstring, last);
        }
      }
    }
  }

  lemma FirstCluster(words: seq<string>, optstring: string, last: Option<string>)
    requires words != [] && IsOptionWord(words[0])
    ensures ParseWords(words, optstring, last) == ParseCluster(words[0][1..], words, optstring, last)
  {
  }

  lemma DashWord(fs: string)
    requires fs != [] && fs != "-"
    ensures IsOptionWord("-" + fs) && ("-" + fs)[1..] == fs
  {
    assert ("-" + fs)[1..] == fs && "--"[1..] == "-";
  }

  /** A word of flags and unknown letters: one result for each letter, '?' for an unknown one with optarg as it was, and
      the scan goes on with the next letter, then with the next word. */
  lemma WordOfLetters(fs: string, rest: seq<string>, optstring: string, last: Option<string>)
    requires fs != [] && fs != "-" && forall k :: 0 <= k < |fs| ==> !TakesArg(optstring, fs[k])
    ensures var p := ParseWords(["-" + fs] + rest, optstring, last);
            var q := ParseWords(rest, optstring, if AnyFlag(fs, optstring) then None else last);
            && |p.results| == |fs| + |q.results| && p.used == 1 + q.used && p.results[|fs|..] == q.results
            && forall i :: 0 <= i < |fs| ==> p.results[i] == LetterResult(fs, i, optstring, last)
  {
    hide TakesArg, LetterResult, AnyFlag;
    var words := ["-" + fs] + rest;
    assert words[1..] == rest;
    DashWord(fs);
    FirstCluster(words, optstring, last);
    ParseLetters(fs, words, optstring, last);
  }

  /** An option whose argument is missing at the end of the vector: '?', no argument, and the word is used up. */
  lemma MissingArgument(fs: string, c: char, optstring: string, last: Option<string>)
    requires (forall k :: 0 <= k < |fs| ==> IsFlag(optstring, fs[k])) && TakesArg(optstring, c) && (fs == [] ==> c != '-')
    ensures ParseWords(["-" + fs + [c]], optstring, last) == Parsed(FlagResults(fs) + [Result('?', None)], 1)
  {
    hide ArityOf, TakesArg, IsFlag, FlagResults, ParseWords;
    var words := ["-" + (fs + [c])];
    assert "-" + fs + [c] == words[0] && (fs + [c])[|fs|] == c;
    DashWord(fs + [c]);
    FirstCluster(words, optstring, last);
    ParseFlags(fs, [c], words, optstring, last);
  }

  // ---------------------------------------------------------------- the options of ivyprobe

  const PROBE := "vn:d:b:w:t:sf:c:"

  lemma ProbeFirst()
    ensures FirstAt(PROBE, 'v', 0) && PROBE[1] != ':'
    ensures FirstAt(PROBE, 'b', 5) && PROBE[6] == ':'
    ensures FirstAt(PROBE, 's', 11) && PROBE[12] != ':'
    ensures |PROBE| == 16 && 'x' !in PROBE
  {
  }

  lemma ProbeLetters()
    ensures IsFlag(PROBE, 'v') && IsFlag(PROBE, 's') && TakesArg(PROBE, 'b')
    ensures !TakesArg(PROBE, 'x') && !IsFlag(PROBE, 'x') && !TakesArg(PROBE, 's')
  {
    hide FirstAt, TakesArg, IsFlag, ArityOf;
    ProbeFirst();
    var s := PROBE;
    ArityAt(s, 'v', 0);
    ArityAt(s, 's', 11);
    ArityAt(s, 'b', 5);
    var a := ArityOf(s, 'x');
  }

  /** Flags, an option with its argument apart or attached, an operand. */
  lemma ProbeArguments()
    ensures ParseWords(["-v", "-b", "10:2010", "hello"], PROBE, None) ==
            Parsed([Result('v', None), Result('b', Some("10:2010"))], 3)
    ensures ParseWords(["-svb10:2010", "hello"], PROBE, None) ==
            Parsed([Result('s', None), Result('v', None), Result('b', Some("10:2010"))], 1)
  {
    ProbeLetters();
    hide ArityOf, TakesArg, IsFlag, ParseWords;
    var g, h, k := Flags("v"), Ending("", 'b', "10:2010", false), Ending("sv", 'b', "10:2010", true);
    RoundTrip([g, h], ["hello"], PROBE, None);
    RoundTrip([k], ["hello"], PROBE, None);
    assert [g, h][1..] == [h] && [h][1..] == [] && [k][1..] == [];
    assert "-" + "v" == "-v" && "-" + "" + ['b'] == "-b" && "-" + "sv" + ['b'] + "10:2010" == "-svb10:2010";
    assert Print([g, h]) == PrintGroup(g) + PrintGroup(h) && Print([k]) == PrintGroup(k);
    assert Meaning([g, h]) == [Result('v', None), Result('b', Some("10:2010"))];
    assert Meaning([k]) == [Result('s', None), Result('v', None), Result('b', Some("10:2010"))];
    assert Print([g, h]) + ["hello"] == ["-v", "-b", "10:2010", "hello"];
    assert Print([k]) + ["hello"] == ["-svb10:2010", "hello"];
  }

  /** An unknown letter, and an argument that is not there. */
  lemma ProbeMistakes()
    ensures ParseWords(["-xs"], PROBE, None) == Parsed([Result('?', None), Result('s', None)], 1)
    ensures ParseWords(["-b"], PROBE, None) == Parsed([Result('?', None)], 1)
  {
    ProbeLetters();
    hide TakesArg, IsFlag, ParseWords, AnyFlag;
    MissingArgument("", 'b', PROBE, None);
    assert "-" + "" + ['b'] == "-b";
    var fs := "xs";
    assert fs[0] == 'x' && fs[1] == 's';
    WordOfLetters(fs, [], PROBE, None);
    StopAt([], PROBE, None);
    assert "-" + fs == "-xs";
    assert ["-" + fs] + [] == ["-xs"];
  }

  // ---------------------------------------------------------------- every clean parse is a printed list

  /** The length of the run of flags at the start of a cluster. */
  function FlagRun(cluster: string, optstring: string): (k: nat)
    ensures k <= |cluster| && (k < |cluster| ==> ArityOf(optstring, cluster[k]) != Flag)
    ensures forall j :: 0 <= j < k ==> ArityOf(optstring, cluster[j]) == Flag
  {
    if cluster == [] || ArityOf(optstring, cluster[0]) != Flag then 0 else 1 + FlagRun(cluster[1..], optstring)
  }

  ghost predicate Clean(p: Parsed) {
    forall r :: r in p.results ==> r.ret != '?'
  }

  lemma CleanTail(rs: seq<Result>, p: Parsed)
    requires Clean(Prepend(rs, p))
    ensures Clean(p)
  {
    assert forall r :: r in p.results ==> r in rs + p.results;
  }

  /** After the flags of a clean parse comes an option with its argument at hand. */
  lemma SecondPart(tail: string, words: seq<string>, optstring: string, last: Option<string>)
    requires words != [] && tail != [] && Clean(ParseCluster(tail, words, optstring, last))
    requires ArityOf(optstring, tail[0]) != Flag
    ensures ArityOf(optstring, tail[0]) == WithArg && (|tail| > 1 || |words| >= 2)
  {
    hide ArityOf, TakesArg, IsFlag;
    var p := ParseCluster(tail, words, optstring, last);
    assert p.results != [] && p.results[0] in p.results;
  }

  /** The first word of a clean parse: a dash, a run of flags, and perhaps an option with its argument at hand. */
  lemma CleanWord(words: seq<string>, optstring: string, last: Option<string>, fs: string, tail: string)
    requires words != [] && IsOptionWord(words[0]) && Clean(ParseWords(words, optstring, last))
    requires words[0][1..] == fs + tail && forall k :: 0 <= k < |fs| ==> ArityOf(optstring, fs[k]) == Flag
    requires tail != [] && ArityOf(optstring, tail[0]) != Flag
    ensures ArityOf(optstring, tail[0]) == WithArg && (|tail| > 1 || |words| >= 2)
  {
    hide ArityOf, TakesArg, IsFlag, FlagResults, ParseWords, ParseCluster, Clean, IsOptionWord;
    FirstCluster(words, optstring, last);
    ParseFlags(fs, tail, words, optstring, last);
    var before := if fs == [] then last else None;
    CleanTail(FlagResults(fs), ParseCluster(tail, words, optstring, before));
    SecondPart(tail, words, optstring, before);
  }

  lemma DashFirst(word: string)
    requires IsOptionWord(word)
    ensures |word| >= 2 && word == "-" + word[1..]
  {
  }

  lemma FlagsWord(word: string, fs: string, optstring: string)
    requires IsOptionWord(word) && word == "-" + fs + []
    requires forall k :: 0 <= k < |fs| ==> ArityOf(optstring, fs[k]) == Flag
    ensures Printable(Flags(fs), optstring) && PrintGroup(Flags(fs)) == [word]
  {
    hide ArityOf, TakesArg, IsFlag;
    assert word == "-" + fs;
    assert "-" + "-" == "--";
  }

  lemma EndingWord(words: seq<string>, fs: string, tail: string, optstring: string)
    requires words != [] && IsOptionWord(words[0]) && words[0] == "-" + fs + tail
    requires forall k :: 0 <= k < |fs| ==> ArityOf(optstring, fs[k]) == Flag
    requires tail != [] && ArityOf(optstring, tail[0]) == WithArg && (|tail| > 1 || |words| >= 2)
    ensures var g := if |tail| > 1 then Ending(fs, tail[0], tail[1..], true) else Ending(fs, tail[0], words[1], false);
            Printable(g, optstring) && PrintGroup(g) == words[..if |tail| > 1 then 1 else 2]
  {
    hide ArityOf, TakesArg, IsFlag;
    assert "-" + fs + tail == "-" + fs + [tail[0]] + tail[1..];
    if |tail| == 1 {
      assert "-" + fs + [tail[0]] + [] == "-" + fs + [tail[0]];
      assert fs == [] && tail[0] == '-' ==> "-" + fs + tail == "--";
      assert words[..2] == [words[0], words[1]];
    }
  }

  /** An option word is a dash, a run of flags, and a tail that does not start with a flag. */
  lemma FlagSplit(word: string, optstring: string) returns (fs: string, tail: string)
    requires IsOptionWord(word)
    ensures word == "-" + fs + tail && word[1..] == fs + tail
    ensures forall k :: 0 <= k < |fs| ==> ArityOf(optstring, fs[k]) == Flag
    ensures tail == [] || ArityOf(optstring, tail[0]) != Flag
  {
    hide ArityOf, TakesArg, IsFlag, IsOptionWord;
    DashFirst(word);
    var cluster := word[1..];
    var k := FlagRun(cluster, optstring);
    fs, tail := cluster[..k], cluster[k..];
    assert cluster == fs + tail;
    assert "-" + (fs + tail) == "-" + fs + tail;
  }

  /** The group that the first word (or two) of a clean parse is the print of. */
  lemma FirstGroup(words: seq<string>, optstring: string, last: Option<string>) returns (g: Group)
    requires words != [] && IsOptionWord(words[0]) && Clean(ParseWords(words, optstring, last))
    ensures Printable(g, optstring) && |PrintGroup(g)| <= |words| && PrintGroup(g) == words[..|PrintGroup(g)|]
  {
    hide ArityOf, TakesArg, IsFlag, ParseWords, Clean, IsOptionWord, Printable, PrintGroup;
    var fs, tail := FlagSplit(words[0], optstring);
    if tail == [] {
      FlagsWord(words[0], fs, optstring);
      g := Flags(fs);
      assert words[..1] == [words[0]];
    } else {
      CleanWord(words, optstring, last, fs, tail);
      EndingWord(words, fs, tail, optstring);
      g := if |tail| > 1 then Ending(fs, tail[0], tail[1..], true) else Ending(fs, tail[0], words[1], false);
    }
  }

  lemma GroupNotEmpty(g: Group)
    ensures |PrintGroup(g)| > 0
  {
  }

  /** Parse, then print: when no call returns '?', the words used up are the print of a list of groups whose meaning is the
      results. */
  lemma {:induction false} EveryCleanParseIsPrinted(words: seq<string>, optstring: string, last: Option<string>)
    returns (gs: seq<Group>)
    requires Clean(ParseWords(words, optstring, last))
    ensures forall k :: 0 <= k < |gs| ==> Printable(gs[k], optstring)
    ensures var p := ParseWords(words, optstring, last);
            Print(gs) == words[..p.used] && Meaning(gs) == p.results
    decreases |words|
  {
    hide Printable, PrintGroup, GroupResults, IsOptionWord, LastArg;
    if words == [] || !IsOptionWord(words[0]) {
      gs := [];
      StopAt(words, optstring, last);
    } else {
      var g := FirstGroup(words, optstring, last);
      var n := |PrintGroup(g)|;
      GroupNotEmpty(g);
      var after := LastArg(GroupResults(g), last);
      assert words == PrintGroup(g) + words[n..];
      ParseGroup(g, words[n..], optstring, last);
      var p := ParseWords(words[n..], optstring, after);
      CleanTail(GroupResults(g), Skip(n, p));
      var hs := EveryCleanParseIsPrinted(words[n..], optstring, after);
      gs := [g] + hs;
      assert gs[1..] == hs;
      assert words[..n + p.used] == words[..n] + words[n..][..p.used];
    }
  }
}
