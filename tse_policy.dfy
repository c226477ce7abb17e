/**
 * `handle_existing_file` of the TSE downloader: what to do with a resource
 * whose file may already exist, given the pair of "for all files" flags
 * that `main` threads from one resource to the next.
 *
 * The prompt reads lines until one is a valid choice.  The functions below
 * see the answer lines through `Choices`, the choice each line makes; a
 * prompt that finds the lines exhausted raises `EOFError`, which nothing in
 * the script catches before the top level.
 */
module TsePolicy {
  import opened Wrappers
  import opened Text

  datatype Action = Skip | Overwrite

  /** `(global_skip_all, global_overwrite_all)`. */
  datatype Flags = Flags(skipAll: bool, overwriteAll: bool)

  const NoFlags := Flags(false, false)

  /** A choice of the prompt: the action and the flags it leaves. */
  type Choice = (Action, Flags)

  /** What one answer line chooses, once stripped and lower-cased; None asks again. */
  function ChoiceOf(answer: string): Option<Choice> {
    var c := Lower(Strip(answer));
    if c == "s" then Some((Skip, NoFlags))
    else if c == "o" then Some((Overwrite, NoFlags))
    else if c == "sa" then Some((Skip, Flags(true, false)))
    else if c == "oa" then Some((Overwrite, Flags(false, true)))
    else None
  }

  /** The four choices the prompt offers. */
  predicate Offered(c: Choice) {
    c == (Skip, NoFlags) || c == (Overwrite, NoFlags) || c == (Skip, Flags(true, false)) || c == (Overwrite, Flags(false, true))
  }

  /** The key the prompt shows for each offered choice. */
  function Key(c: Choice): (k: string)
    requires Offered(c)
    ensures 1 <= |k| <= 2
  {
    if c == (Skip, NoFlags) then "s"
    else if c == (Overwrite, NoFlags) then "o"
    else if c == (Skip, Flags(true, false)) then "sa"
    else "oa"
  }

  /** Typing a choice's key makes that choice: the prompt understands every key it shows. */
  lemma ChoiceOfKey(c: Choice)
    requires Offered(c)
    ensures ChoiceOf(Key(c)) == Some(c)
  {
    var k := Key(c);
    StripUnspaced(k);
    assert Lower(k) == k;
  }

  /** Whatever an answer chooses is one of the offered choices; none of them sets both flags. */
  lemma ChoiceOfOffered(answer: string)
    ensures ChoiceOf(answer).Some? ==> Offered(ChoiceOf(answer).value)
    ensures ChoiceOf(answer).Some? ==> !(ChoiceOf(answer).value.1.skipAll && ChoiceOf(answer).value.1.overwriteAll)
  {
  }

  /** What each answer line chooses, in order. */
  function Choices(answers: seq<string>): (r: seq<Option<Choice>>)
    ensures |r| == |answers|
    ensures forall i :: 0 <= i < |answers| ==> r[i] == ChoiceOf(answers[i])
    ensures forall i :: 0 <= i < |r| ==> (r[i].Some? <==> Lower(Strip(answers[i])) in ["s", "o", "sa", "oa"])
    ensures forall i :: 0 <= i < |r| && r[i].Some? ==> Offered(r[i].value)
  {
    var r := seq(|answers|, i requires 0 <= i < |answers| => ChoiceOf(answers[i]));
    assert forall i :: 0 <= i < |r| ==> ChoiceFacts(answers[i], r[i]) by {
      forall i | 0 <= i < |r| ensures ChoiceFacts(answers[i], r[i]) {
        ChoiceOfKeys(answers[i]);
      }
    }
    r
  }

  predicate ChoiceFacts(answer: string, r: Option<Choice>) {
    (r.Some? <==> Lower(Strip(answer)) in ["s", "o", "sa", "oa"]) && (r.Some? ==> Offered(r.value))
  }

  /** An answer chooses exactly when it is one of the four keys, and then an offered choice. */
  lemma ChoiceOfKeys(answer: string)
    ensures ChoiceFacts(answer, ChoiceOf(answer))
  {
    var c := Lower(Strip(answer));
    assert c in ["s", "o", "sa", "oa"] <==> c == "s" || c == "o" || c == "sa" || c == "oa";
  }

  lemma ChoicesSuffix(answers: seq<string>, n: nat)
    requires n <= |answers|
    ensures Choices(answers[n..]) == Choices(answers)[n..]
  {
  }


  /** The outcome of `handle_existing_file`: the action, the new flags and the lines read; None on `EOFError`. */
  datatype Handled = Handled(action: Action, flags: Flags, read: nat)

  function HandleExisting(present: bool, flags: Flags, choices: seq<Option<Choice>>): (r: Option<Handled>)
    ensures r.Some? ==> r.value.read <= |choices|
    ensures r.Some? && r.value.read == 0 ==> !present || flags.skipAll || flags.overwriteAll
  {
    if !present then Some(Handled(Overwrite, flags, 0))
    else if flags.skipAll then Some(Handled(Skip, flags, 0))
    else if flags.overwriteAll then Some(Handled(Overwrite, flags, 0))
    else match FirstSome(choices)
      case None => None
      case Some(((action, flags'), n)) => Some(Handled(action, flags', n))
  }

  /** An absent file is (over)written, whatever the flags say, and the flags stay as they were. */
  lemma AbsentFileOverwrites(flags: Flags, choices: seq<Option<Choice>>)
    ensures HandleExisting(false, flags, choices) == Some(Handled(Overwrite, flags, 0))
  {
  }

  /**
   * For an existing file a set flag decides without asking, `skip_all`
   * first; the flags are kept and no line is read.
   */
  lemma FlagsDecide(flags: Flags, choices: seq<Option<Choice>>)
    requires flags.skipAll || flags.overwriteAll
    ensures HandleExisting(true, flags, choices) ==
      Some(Handled(if flags.skipAll then Skip else Overwrite, flags, 0))
  {
  }

  /**
   * With neither flag set the user decides: the first line that is one of
   * the keys makes its choice, every earlier line is read and rejected, and
   * running out of lines aborts.
   */
  lemma PromptDecides(choices: seq<Option<Choice>>)
    ensures var h := HandleExisting(true, NoFlags, choices);
      (h.None? <==> forall j :: 0 <= j < |choices| ==> choices[j].None?) &&
      (h.Some? ==> 1 <= h.value.read <= |choices| &&
                   choices[h.value.read - 1] == Some((h.value.action, h.value.flags)) &&
                   forall j :: 0 <= j < h.value.read - 1 ==> choices[j].None?)
  {
    var r := FirstSome(choices);
    if r.Some? {
      assert (r.value.0.0, r.value.0.1) == r.value.0;
    }
  }

  /** Every choice made is one the prompt offers. */
  predicate AllOffered(choices: seq<Option<Choice>>) {
    forall j :: 0 <= j < |choices| && choices[j].Some? ==> Offered(choices[j].value)
  }

  lemma ChoicesOffered(answers: seq<string>)
    ensures AllOffered(Choices(answers))
  {
    forall j | 0 <= j < |answers| {
      ChoiceOfOffered(answers[j]);
    }
  }

  /** The two flags are never both set afterwards unless they were both set before. */
  lemma FlagsExclusive(present: bool, flags: Flags, choices: seq<Option<Choice>>)
    requires AllOffered(choices)
    requires !(flags.skipAll && flags.overwriteAll)
    ensures var h := HandleExisting(present, flags, choices);
      h.Some? ==> !(h.value.flags.skipAll && h.value.flags.overwriteAll)
  {
    var r := FirstSome(choices);
    if present && !flags.skipAll && !flags.overwriteAll && r.Some? {
      assert Offered(choices[r.value.1 - 1].value);
    }
  }

  /** Once a flag is set it stays set: every later existing file is decided without a prompt. */
  lemma FlagsPersist(present: bool, flags: Flags, choices: seq<Option<Choice>>)
    requires flags.skipAll || flags.overwriteAll
    ensures var h := HandleExisting(present, flags, choices);
      h.Some? && h.value.flags == flags && h.value.read == 0
  {
  }

  /** `handle_existing_file`: the flag tests, then the prompt loop over the answer lines. */
  method HandleExistingFile(present: bool, flags: Flags, choices: seq<Option<Choice>>) returns (h: Option<Handled>)
    ensures h == HandleExisting(present, flags, choices)
  {
    if !present {
      return Some(Handled(Overwrite, flags, 0));
    }
    if flags.skipAll {
      return Some(Handled(Skip, flags, 0));
    }
    if flags.overwriteAll {
      return Some(Handled(Overwrite, flags, 0));
    }
    var i := 0;
    while i < |choices|
      invariant 0 <= i <= |choices|
      invariant forall j :: 0 <= j < i ==> choices[j].None?
    {
      match choices[i] {
        case Some((action, flags')) =>
          FirstSomeAt(choices, i);
          return Some(Handled(action, flags', i + 1));
        case None =>
      }
      i := i + 1;
    }
    return None;
  }
}
