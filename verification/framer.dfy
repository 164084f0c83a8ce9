/** The sentence framer of src/gps.cpp: `getGPGGA` reads lines from the serial
    device until one starts with "$GPGGA". The device is replaced by the finite
    sequence of lines it would deliver; running out of lines, which the real
    loop would wait for forever, gives None. */
module Framer {
  import opened Options
  import opened StdString

  const Target: string := "$GPGGA"

  /** The loop's exit test: data.substr(0, 6) == "$GPGGA". */
  predicate IsGPGGA(line: string) {
    Substr(line, 0, 6) == Some(Target)
  }

  /** getGPGGA: the first line that passes the exit test; every line read
      before it is discarded. */
  function GetGPGGA(lines: seq<string>): (r: Option<string>)
    ensures r.Some? ==> IsGPGGA(r.value)
    ensures r.Some? ==>
              exists i :: 0 <= i < |lines| && lines[i] == r.value && forall j :: 0 <= j < i ==> !IsGPGGA(lines[j])
    ensures r.None? <==> forall i :: 0 <= i < |lines| ==> !IsGPGGA(lines[i])
  {
    if |lines| == 0 then None
    else if IsGPGGA(lines[0]) then Some(lines[0])
    else
      var r := GetGPGGA(lines[1..]);
      assert forall i :: 0 <= i < |lines| - 1 ==> lines[1..][i] == lines[i + 1];
      r
  }

  /** A line passes the exit test exactly when it is at least six characters
      long and starts with "$GPGGA"; shorter lines never pass. */
  lemma IsGPGGAPrefix(line: string)
    ensures IsGPGGA(line) <==> |line| >= 6 && line[..6] == Target
  {
  }

  /** Lines that are not GGA sentences in front of the stream change nothing. */
  lemma {:induction false} SkipsOtherSentences(skipped: seq<string>, rest: seq<string>)
    requires forall i :: 0 <= i < |skipped| ==> !IsGPGGA(skipped[i])
    ensures GetGPGGA(skipped + rest) == GetGPGGA(rest)
    decreases |skipped|
  {
    if |skipped| > 0 {
      assert (skipped + rest)[1..] == skipped[1..] + rest;
      SkipsOtherSentences(skipped[1..], rest);
    } else {
      assert skipped + rest == rest;
    }
  }
}
