/**
 * The recognition side of the demo: building the recognizer alphabet from the
 * user's symbol set, checking the recognizer's output width against it, and
 * the confidence gate applied to each decoded string.
 */
module Recognition {
  import opened Wrappers

  /** The reserved CTC pad (blank) symbol. */
  const PadSymbol: char := '#'

  /** Configuration errors: each aborts the whole run. */
  datatype ConfigError =
    | ReservedSymbolInSet
    | AlphabetMismatch(outputWidth: int, alphabetLength: int)

  /**
   * The recognizer alphabet: the symbol set with the pad symbol appended.
   * A symbol set that already contains the pad symbol is rejected.
   */
  function MakeAlphabet(symbols: string): (r: Result<string, ConfigError>)
    ensures r.Failure? <==> PadSymbol in symbols
    ensures r.Failure? ==> r.error == ReservedSymbolInSet
    ensures r.Success? ==> |r.value| == |symbols| + 1 && r.value[..|symbols|] == symbols
    ensures r.Success? ==> forall i :: 0 <= i < |r.value| ==> (r.value[i] == PadSymbol <==> i == |symbols|)
  {
    if PadSymbol in symbols then Failure(ReservedSymbolInSet) else Success(symbols + [PadSymbol])
  }

  /** The pad symbol of a built alphabet sits at its last position, and dropping it gives back the symbol set. */
  lemma PadIsLast(symbols: string)
    requires MakeAlphabet(symbols).Success?
    ensures var a := MakeAlphabet(symbols).value;
      a[|a| - 1] == PadSymbol && a[..|a| - 1] == symbols && multiset(a)[PadSymbol] == 1
  {
    var a := MakeAlphabet(symbols).value;
    assert a == symbols + [PadSymbol];
    assert multiset(symbols)[PadSymbol] == 0;
  }

  /** The recognizer output has one column per alphabet entry, or the run aborts. */
  function CheckOutputWidth(outputWidth: int, alphabet: string): (r: Result<(), ConfigError>)
    ensures r.Success? <==> outputWidth == |alphabet|
    ensures r.Failure? ==> r.error == AlphabetMismatch(outputWidth, |alphabet|)
  {
    if outputWidth != |alphabet| then Failure(AlphabetMismatch(outputWidth, |alphabet|)) else Success(())
  }

  /** The confidence gate: the decoded string survives only at or above the threshold. */
  function Gate(text: string, conf: real, minConfidence: real): (r: string)
    ensures r == text || r == ""
    ensures r == text <== conf >= minConfidence
    ensures r != "" <==> text != "" && conf >= minConfidence
  {
    if conf >= minConfidence then text else ""
  }

  /** One recognizer result: the decoded string and its confidence. */
  datatype Decoded = Decoded(text: string, conf: real)

  /** The positions of the results that survive the gate with a non-empty string. */
  ghost function Survivors(results: seq<Decoded>, minConfidence: real): set<int>
  {
    set i | 0 <= i < |results| && Gate(results[i].text, results[i].conf, minConfidence) != ""
  }

  /** How many results survive the gate with a non-empty string. */
  function CountFound(results: seq<Decoded>, minConfidence: real): (n: nat)
    ensures n == |Survivors(results, minConfidence)|
    ensures n <= |results|
    ensures n == |results| <==> forall i :: 0 <= i < |results| ==> Gate(results[i].text, results[i].conf, minConfidence) != ""
    decreases |results|
  {
    if |results| == 0 then
      assert Survivors(results, minConfidence) == {};
      0
    else
      var last := results[|results| - 1];
      SurvivorsDropLast(results, minConfidence);
      CountFound(results[..|results| - 1], minConfidence) + (if Gate(last.text, last.conf, minConfidence) != "" then 1 else 0)
  }

  /** The survivors of a list are those of the list without its last result, plus that result's position if it survives. */
  lemma SurvivorsDropLast(results: seq<Decoded>, minConfidence: real)
    requires |results| > 0
    ensures var n, last := |results| - 1, results[|results| - 1];
      && n !in Survivors(results[..n], minConfidence)
      && Survivors(results, minConfidence)
         == Survivors(results[..n], minConfidence) + (if Gate(last.text, last.conf, minConfidence) != "" then {n} else {})
  {
  }

  /** Raising the threshold never increases the number of regions found. */
  lemma {:induction false} CountFoundAntitone(results: seq<Decoded>, lower: real, higher: real)
    requires lower <= higher
    ensures CountFound(results, higher) <= CountFound(results, lower)
    decreases |results|
  {
    if |results| > 0 {
      CountFoundAntitone(results[..|results| - 1], lower, higher);
    }
  }
}
