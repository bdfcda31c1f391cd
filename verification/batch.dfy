/** The batch side of the command-line tool: reading the word list,
    choosing the output file name, and the per-word loop of
    `process_word_list` with its lookups replaced by their outcomes. */
module Batch {
  import opened Wrappers
  import opened Seqs
  import opened Text
  import opened Extraction

  // ---------------------------------------------------------------------
  // Word list

  predicate NonEmpty(w: string) {
    |w| > 0
  }

  /** `read_words_from_file`: every line stripped, blank lines dropped. */
  function ReadWords(lines: seq<string>): (r: seq<string>)
    ensures |r| <= |lines|
    ensures forall i :: 0 <= i < |r| ==> |r[i]| > 0 && IsTrimmed(r[i])
  {
    var stripped := Map(Strip, lines);
    FilterElements(NonEmpty, stripped);
    assert forall w :: w in stripped ==> IsTrimmed(w);
    Filter(NonEmpty, stripped)
  }

  /** Reading is line by line: a file's words are those of its parts. */
  lemma ReadWordsAppend(a: seq<string>, b: seq<string>)
    ensures ReadWords(a + b) == ReadWords(a) + ReadWords(b)
  {
    MapAppend(Strip, a, b);
    FilterAppend(NonEmpty, Map(Strip, a), Map(Strip, b));
  }

  /** A line contributes nothing exactly when it is all whitespace, and
      otherwise contributes its stripped text. */
  lemma ReadWordsLine(line: string)
    ensures ReadWords([line]) == [] <==> AllSpace(line)
    ensures !AllSpace(line) ==> ReadWords([line]) == [Strip(line)]
  {
    StripEmptyIffAllSpace(line);
    assert Map(Strip, [line]) == [Strip(line)];
    assert Filter(NonEmpty, [Strip(line)])
           == (if NonEmpty(Strip(line)) then [Strip(line)] else []) + Filter(NonEmpty, []);
  }

  /** Reading a list that was already read gives it back: its words are
      non-empty and stripped. */
  lemma ReadWordsIdempotent(lines: seq<string>)
    ensures ReadWords(ReadWords(lines)) == ReadWords(lines)
  {
    var r := ReadWords(lines);
    forall i | 0 <= i < |r|
      ensures Strip(r[i]) == r[i]
    {
      StripTrimmed(r[i]);
    }
    assert Map(Strip, r) == r;
    FilterAll(NonEmpty, r);
  }

  // ---------------------------------------------------------------------
  // Output file name

  const TxtExtension := ".txt"
  const FileFlag := "--file"

  /** How many arguments there must be beyond which the last one names the
      output file: three after `--file <path>`, two after a bare path. */
  function ExplicitOutputThreshold(args: seq<string>): nat
    requires |args| >= 2
  {
    if args[1] == FileFlag then 3 else 2
  }

  /** `determine_output_filename`: the last argument when an explicit
      output path was given, else the input path with every `.txt`
      removed, plus `.json`. */
  function OutputFilename(inputFile: string, args: seq<string>): (r: string)
    requires |args| >= 2
    ensures |args| > ExplicitOutputThreshold(args) ==> r == args[|args| - 1]
    ensures |args| <= ExplicitOutputThreshold(args) ==>
              && |r| >= 5
              && |r| == |inputFile| - |TxtExtension| * Occurrences(inputFile, TxtExtension) + 5
              && r[|r| - 5..] == ".json"
  {
    var baseName := RemoveAll(inputFile, TxtExtension);
    RemoveAllLength(inputFile, TxtExtension);
    if |args| > ExplicitOutputThreshold(args) then args[|args| - 1]
    else baseName + ".json"
  }

  /** Without `.txt` anywhere in the path the default name is the path plus
      `.json`. */
  lemma OutputFilenameNoTxt(inputFile: string, args: seq<string>)
    requires |args| >= 2 && |args| <= ExplicitOutputThreshold(args)
    requires forall i :: !ContainsAt(inputFile, TxtExtension, i)
    ensures OutputFilename(inputFile, args) == inputFile + ".json"
  {
    RemoveAllAbsent(inputFile, TxtExtension);
  }

  /** No `.txt` starts inside `stem`, even one running into a following
      `.txt`: the first `.txt` of `stem + ".txt"` is the appended one. */
  predicate NoTxtBefore(stem: string) {
    forall i :: 0 <= i < |stem| ==> !ContainsAt(stem + TxtExtension, TxtExtension, i)
  }

  /** After `--file <path>`, a fourth argument names the output; without
      one the name is derived from the path. */
  lemma OutputFilenameWithFlag(prog: string, path: string, out: string)
    ensures OutputFilename(path, [prog, FileFlag, path, out]) == out
    ensures OutputFilename(path, [prog, FileFlag, path]) == RemoveAll(path, TxtExtension) + ".json"
  {
  }

  /** After a bare path, a third argument already names the output. */
  lemma OutputFilenameBarePath(prog: string, path: string, out: string)
    requires path != FileFlag
    ensures OutputFilename(path, [prog, path, out]) == out
    ensures OutputFilename(path, [prog, path]) == RemoveAll(path, TxtExtension) + ".json"
  {
  }

  /** `<stem>.txt` defaults to `<stem>.json` whenever the appended `.txt`
      is the first one: `./words.txt` and `words.v2.txt` included. */
  lemma OutputFilenameOfStem(stem: string, args: seq<string>)
    requires NoTxtBefore(stem)
    requires |args| >= 2 && |args| <= ExplicitOutputThreshold(args)
    ensures OutputFilename(stem + TxtExtension, args) == stem + ".json"
  {
    RemoveAllFirst(stem, "", TxtExtension);
    assert stem + TxtExtension + "" == stem + TxtExtension;
  }

  /** Every `.txt` goes, not only a trailing one. */
  lemma OutputFilenameRemovesEveryTxt(stem: string, args: seq<string>)
    requires NoTxtBefore(stem)
    requires |args| >= 2 && |args| <= ExplicitOutputThreshold(args)
    ensures OutputFilename(stem + TxtExtension + TxtExtension, args) == stem + ".json"
  {
    RemoveAllFirst(stem, TxtExtension, TxtExtension);
    RemoveAllFirst("", "", TxtExtension);
    assert "" + TxtExtension + "" == TxtExtension;
    assert stem + "" == stem;
  }

  // ---------------------------------------------------------------------
  // The batch loop

  /** The successful lookups, in input order. */
  function Successes(outcomes: seq<Result<WordEntry, LookupError>>): seq<WordEntry> {
    if |outcomes| == 0 then []
    else
      var init := Successes(outcomes[..|outcomes| - 1]);
      match outcomes[|outcomes| - 1]
      case Success(e) => init + [e]
      case Failure(_) => init
  }

  lemma SuccessesSnoc(outcomes: seq<Result<WordEntry, LookupError>>, o: Result<WordEntry, LookupError>)
    ensures Successes(outcomes + [o]) == Successes(outcomes) + (if o.Success? then [o.value] else [])
  {
    assert (outcomes + [o])[..|outcomes|] == outcomes;
  }

  predicate IsSuccess(o: Result<WordEntry, LookupError>) {
    o.Success?
  }

  /** The results are the values of the successful outcomes: failed words
      leave no placeholder and the order is kept. */
  lemma {:induction false} SuccessesAreFiltered(outcomes: seq<Result<WordEntry, LookupError>>)
    ensures |Successes(outcomes)| == |Filter(IsSuccess, outcomes)|
    ensures forall k :: 0 <= k < |Successes(outcomes)| ==>
              Filter(IsSuccess, outcomes)[k] == Success(Successes(outcomes)[k])
  {
    if |outcomes| > 0 {
      var init := outcomes[..|outcomes| - 1];
      var last := outcomes[|outcomes| - 1];
      SuccessesAreFiltered(init);
      assert outcomes == init + [last];
      FilterAppend(IsSuccess, init, [last]);
      assert Filter(IsSuccess, [last]) == (if IsSuccess(last) then [last] else []) + Filter(IsSuccess, []);
    }
  }

  /** The word indices, below `n`, after which the batch loop pauses: a
      successful word that is not the last one. */
  function DelaysBefore(outcomes: seq<Result<WordEntry, LookupError>>, n: nat): seq<nat>
    requires n <= |outcomes|
  {
    if n == 0 then []
    else DelaysBefore(outcomes, n - 1)
         + (if n - 1 < |outcomes| - 1 && outcomes[n - 1].Success? then [n - 1] else [])
  }

  /** Every pause index is below `n`, and the indices increase. */
  lemma {:induction false} DelaysBeforeOrdered(outcomes: seq<Result<WordEntry, LookupError>>, n: nat)
    requires n <= |outcomes|
    ensures forall a :: 0 <= a < |DelaysBefore(outcomes, n)| ==> DelaysBefore(outcomes, n)[a] < n
    ensures forall a, b :: 0 <= a < b < |DelaysBefore(outcomes, n)| ==>
              DelaysBefore(outcomes, n)[a] < DelaysBefore(outcomes, n)[b]
  {
    if n > 0 {
      DelaysBeforeOrdered(outcomes, n - 1);
      var prev := DelaysBefore(outcomes, n - 1);
      var extra: seq<nat> :=
        if n - 1 < |outcomes| - 1 && outcomes[n - 1].Success? then [n - 1] else [];
      var d := DelaysBefore(outcomes, n);
      assert d == prev + extra;
    }
  }

  /** The pauses come after exactly the successful words other than the
      last. */
  lemma {:induction false} DelaysBeforeMembers(outcomes: seq<Result<WordEntry, LookupError>>, n: nat)
    requires n <= |outcomes|
    ensures forall i :: i in DelaysBefore(outcomes, n) <==>
              0 <= i < n && i < |outcomes| - 1 && outcomes[i].Success?
  {
    if n > 0 {
      DelaysBeforeMembers(outcomes, n - 1);
    }
  }

  /** `process_word_list` after reading: run each word's lookup outcome
      through the loop, collect the successes and record after which word
      indices a delay was slept. */
  method ProcessWordList(outcomes: seq<Result<WordEntry, LookupError>>)
    returns (results: seq<WordEntry>, delays: seq<nat>)
    ensures results == Successes(outcomes)
    ensures forall i :: i in delays <==> 0 <= i < |outcomes| - 1 && outcomes[i].Success?
    ensures Increasing(delays)
  {
    results := [];
    delays := [];
    var i := 0;
    while i < |outcomes|
      invariant 0 <= i <= |outcomes|
      invariant results == Successes(outcomes[..i])
      invariant delays == DelaysBefore(outcomes, i)
    {
      assert outcomes[..i + 1][..i] == outcomes[..i];
      match outcomes[i] {
        case Success(entry) =>
          results := results + [entry];
          if i < |outcomes| - 1 {
            delays := delays + [i];
          }
        case Failure(_) =>
      }
      i := i + 1;
    }
    assert outcomes[..i] == outcomes;
    DelaysBeforeOrdered(outcomes, i);
    DelaysBeforeMembers(outcomes, i);
  }

  /** Three words of which the second fails give two results, the first
      and the third, and one delay, after the first word. */
  method SecondWordFails(e1: WordEntry, e3: WordEntry, err: LookupError)
    returns (results: seq<WordEntry>, delays: seq<nat>)
    ensures results == [e1, e3]
    ensures delays == [0]
  {
    var first: seq<Result<WordEntry, LookupError>> := [Success(e1)];
    var outcomes := first + [Failure(err)] + [Success(e3)];
    results, delays := ProcessWordList(outcomes);
    SuccessesSnoc([], Success(e1));
    SuccessesSnoc(first, Failure(err));
    SuccessesSnoc(first + [Failure(err)], Success(e3));
    assert forall i :: i in delays <==> i in [0];
    IncreasingUnique(delays, [0]);
  }
}
