/** The resumable option scanner of getopt.c, proved against the parser of whole argument vectors in GetOptSpec. */
module GetOpt {
  import opened Basics
  import opened GetOptSpec

  /** Character i of a C string: the terminator comes after the last one. Nothing beyond it may be looked at. */
  function CharAt(s: string, i: nat): char
    requires i <= |s|
  {
    if i < |s| then s[i] else '\0'
  }

  /** C strings hold no terminator inside. */
  ghost predicate NulFree(words: seq<string>) {
    forall k :: 0 <= k < |words| ==> '\0' !in words[k]
  }

  class Scanner {
    var optind: nat
    var optarg: Option<string>
    var position: nat     // GetOptionPosition, 1 between words

    constructor ()
      ensures optind == 1 && optarg == None && position == 1
    {
      optind, optarg, position := 1, None, 1;
    }

    /** Between words, or inside an option word before its end. */
    ghost predicate Valid(argv: seq<string>)
      reads this
    {
      position == 1 || (optind < |argv| && 1 < position < |argv[optind]|)
    }

    /** What the calls from here on will return, and how many more words they will use up. */
    ghost function ToCome(argv: seq<string>, optstring: string): Parsed
      reads this
      requires Valid(argv)
    {
      if optind >= |argv| then Parsed([], 0)
      else if position == 1 then ParseWords(argv[optind..], optstring, optarg)
      else ParseCluster(argv[optind][position..], argv[optind..], optstring, optarg)
    }

    /** Whether a word boundary stops the scan. */
    predicate AtEnd(argv: seq<string>)
      reads this
    {
      position == 1 &&
      (optind >= |argv| || CharAt(argv[optind], 0) != '-' || CharAt(argv[optind], 1) == '\0' || argv[optind] == "--")
    }

    lemma ParsingFromHere(argv: seq<string>, optstring: string)
      requires Valid(argv) && NulFree(argv)
      ensures AtEnd(argv) ==> ToCome(argv, optstring) == Parsed([], 0)
      ensures !AtEnd(argv) ==> optind < |argv| && 1 <= position < |argv[optind]|
      ensures !AtEnd(argv) ==>
                ToCome(argv, optstring) == ParseCluster(argv[optind][position..], argv[optind..], optstring, optarg)
    {
      hide ParseCluster;
      if optind < |argv| {
        assert '\0' !in argv[optind] && argv[optind..][0] == argv[optind];
      }
    }

    /** The argument of an option: the rest of the word, else the next word, else none. */
    method TakeArgument(argv: seq<string>, optstring: string) returns (missing: bool)
      requires NulFree(argv) && optind < |argv| && 1 <= position < |argv[optind]|
      requires ArityOf(optstring, argv[optind][position]) == WithArg
      modifies this
      ensures Valid(argv) && position == 1 && optind > old(optind)
      ensures var p := old(ParseCluster(argv[optind][position..], argv[optind..], optstring, optarg));
              var r := if missing then '?' else old(argv[optind][position]);
              p.results == [Result(r, optarg)] + ToCome(argv, optstring).results
              && old(optind) + p.used == optind + ToCome(argv, optstring).used
    {
      hide ArityOf;
      ghost var words, cluster := argv[optind..], argv[optind][position..];
      assert cluster[1..] == argv[optind][position + 1..] && words[1..] == argv[optind + 1..];
      missing := false;
      if position + 1 < |argv[optind]| {
        optarg := Some(argv[optind][position + 1..]);
        optind := optind + 1;
      } else {
        optind := optind + 1;
        if optind >= |argv| {
          optarg := None;
          missing := true;
        } else {
          assert words[2..] == argv[optind + 1..] && words[1] == argv[optind];
          optarg := Some(argv[optind]);
          optind := optind + 1;
        }
      }
      position := 1;
    }

    /** Moves to the next character, or to the next word at the end of this one. */
    method Advance(argv: seq<string>, optstring: string)
      requires NulFree(argv) && optind < |argv| && 1 <= position < |argv[optind]|
      modifies `optind, `position
      ensures Valid(argv)
      ensures optind > old(optind) || (optind == old(optind) && position > old(position))
      ensures var p := ParseCluster(old(argv[optind][position + 1..]), old(argv[optind..]), optstring, optarg);
              p.results == ToCome(argv, optstring).results && old(optind) + p.used == optind + ToCome(argv, optstring).used
    {
      assert '\0' !in argv[optind];
      assert argv[optind..][1..] == argv[optind + 1..];
      position := position + 1;
      if CharAt(argv[optind], position) == '\0' {
        optind := optind + 1;
        position := 1;
      }
    }

    /** getopt(); None is EOF. A call that does not return EOF yields the first of the results to come and moves forward;
        EOF comes when there are none to come, and changes nothing. */
    method Next(argv: seq<string>, optstring: string) returns (ret: Option<char>)
      requires Valid(argv) && NulFree(argv)
      modifies this
      ensures Valid(argv)
      ensures ret.None? ==> old(ToCome(argv, optstring)) == Parsed([], 0)
      ensures ret.None? ==> optind == old(optind) && position == old(position) && optarg == old(optarg)
      ensures ret.Some? ==> old(ToCome(argv, optstring)).results ==
                            [Result(ret.value, optarg)] + ToCome(argv, optstring).results
      ensures old(optind) + old(ToCome(argv, optstring)).used == optind + ToCome(argv, optstring).used
      ensures ret.Some? ==> old(optind) < |argv|
      ensures ret.Some? ==> optind > old(optind) || (optind == old(optind) && position > old(position))
    {
      hide IndexOf;
      ParsingFromHere(argv, optstring);
      if position == 1 {
        if optind >= |argv| || CharAt(argv[optind], 0) != '-' || CharAt(argv[optind], 1) == '\0' {
          return None;
        }
        if argv[optind] == "--" {
          return None;
        }
      }
      var c := argv[optind][position];
      ghost var words, cluster := argv[optind..], argv[optind][position..];
      assert cluster[1..] == argv[optind][position + 1..] && cluster[0] == c && words[1..] == argv[optind + 1..];
      var cp := IndexOf(optstring, c);
      if c == ':' || cp == |optstring| {
        Advance(argv, optstring);
        return Some('?');
      }
      optarg := None;
      if CharAt(optstring, cp + 1) == ':' {
        var missing := TakeArgument(argv, optstring);
        return Some(if missing then '?' else c);
      }
      Advance(argv, optstring);
      return Some(c);
    }

    /** The caller's loop: getopt until EOF. It ends, with the results and the final optind of the whole-vector parser. */
    method All(argv: seq<string>, optstring: string) returns (results: seq<Result>)
      requires NulFree(argv) && optind == 1 && position == 1
      modifies this
      ensures var p := ParseWords(if argv == [] then [] else argv[1..], optstring, old(optarg));
              results == p.results && optind == 1 + p.used
      ensures position == 1
    {
      results := [];
      ghost var goal := ToCome(argv, optstring);
      while true
        invariant Valid(argv) && results + ToCome(argv, optstring).results == goal.results
        invariant optind + ToCome(argv, optstring).used == 1 + goal.used
        decreases |argv| - optind, if optind < |argv| then |argv[optind]| - position else 0
      {
        var r := Next(argv, optstring);
        if r == None {
          break;
        }
        results := results + [Result(r.value, optarg)];
      }
      ParsingFromHere(argv, optstring);
    }
  }
}
