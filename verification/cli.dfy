/**
 * `str2bool` of `rawrsync.py`, the argument type of the `--interactive`
 * flag: a boolean word in any case, or an argument error.
 */
module Cli {
  import opened Results
  import opened Text

  /** The words `str2bool` reads as true, in lower case. */
  const TrueWords: set<string> := {"yes", "true", "t", "y", "1"}

  /** The words `str2bool` reads as false, in lower case. */
  const FalseWords: set<string> := {"no", "false", "f", "n", "0"}

  /** The message of the `ArgumentTypeError` raised for any other word. */
  const NotABoolean := "Boolean value expected."

  /** `str2bool`: the true words first, then the false words, otherwise an error. */
  function Str2Bool(v: string): (r: Result<bool, string>)
    ensures r.Ok? && r.value <==> Lower(v) in TrueWords
    ensures r.Ok? && !r.value <==> Lower(v) in FalseWords
    ensures r.Err? <==> Lower(v) !in TrueWords && Lower(v) !in FalseWords
    ensures r.Err? ==> r.error == NotABoolean
  {
    TrueFalseDisjoint();
    if Lower(v) in TrueWords then Ok(true)
    else if Lower(v) in FalseWords then Ok(false)
    else Err(NotABoolean)
  }

  /** No word is both true and false, so the order of the two tests does not matter. */
  lemma TrueFalseDisjoint()
    ensures TrueWords * FalseWords == {}
  {
    assert "yes" != "no" && "t" != "f" && "y" != "n" && "1" != "0";
    forall w | w in TrueWords
      ensures w !in FalseWords
    {
      assert w[0] in {'y', 't', '1'};
    }
  }

  /** `str2bool` does not see case: lowering the argument first changes nothing. */
  lemma Str2BoolIgnoresCase(v: string)
    ensures Str2Bool(Lower(v)) == Str2Bool(v)
  {
    LowerIdempotent(v);
  }

  /** Mixed-case spellings are accepted, and a near miss is an error. */
  lemma Str2BoolExamples()
    ensures Str2Bool("Yes") == Ok(true) && Str2Bool("TRUE") == Ok(true)
    ensures Str2Bool("F") == Ok(false) && Str2Bool("0") == Ok(false)
    ensures Str2Bool("on") == Err(NotABoolean)
  {
    assert Lower("Yes") == "yes";
    assert Lower("TRUE") == "true";
    assert Lower("F") == "f";
    assert Lower("0") == "0";
    assert Lower("on") == "on";
  }
}
