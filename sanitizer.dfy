/** `cleaned_response`: removing the Markdown code fence a language model may
    wrap around the JSON it was asked to return. */
module Sanitizer {
  import opened Wrappers
  import opened PyStr

  /** The opening of a Markdown code fence. */
  const FENCE := "```"

  /** What `str(e)` gives for the `IndexError` of indexing past a list's end. */
  const INDEX_ERROR := "list index out of range"

  /** `cleaned_response(response)`: strip; if the result opens a fence, keep what
      lies after its first line and before its last line, and strip again.
      A fenced reply with no newline makes `split("\n", 1)` return one piece,
      and indexing it at 1 raises `IndexError`. */
  function CleanedResponse(response: string): (r: Result<string>)
    ensures r.Failure? <==> StartsWith(Strip(response), FENCE) && '\n' !in Strip(response)
    ensures r.Failure? ==> r.error == INDEX_ERROR
    ensures r.Success? ==> IsSubstring(r.value, response) && |r.value| <= |response|
    ensures r.Success? ==> NoEdgeSpace(r.value)
  {
    var t := Strip(response);
    StripIsSubstring(response);
    if StartsWith(t, FENCE) then
      var parts := SplitOnce(t, '\n');
      if |parts| < 2 then Failure(INDEX_ERROR)
      else
        var body := RSplitOnce(parts[1], '\n')[0];
        FencedBodyWithin(t);
        SubstringTransitive(Strip(body), t, response);
        StripMeaning(body);
        Success(Strip(body))
    else
      StripMeaning(response);
      Success(t)
  }

  /** What is left between the first and the last line of `t` is a piece of `t`. */
  lemma FencedBodyWithin(t: string)
    requires '\n' in t
    ensures IsSubstring(Strip(RSplitOnce(SplitOnce(t, '\n')[1], '\n')[0]), t)
  {
    var parts := SplitOnce(t, '\n');
    var lines := RSplitOnce(parts[1], '\n');
    var body := lines[0];
    SidesAreSubstrings(parts[0], '\n', parts[1]);
    if |lines| == 2 {
      SidesAreSubstrings(lines[0], '\n', lines[1]);
      SubstringTransitive(body, parts[1], t);
    }
    StripIsSubstring(body);
    SubstringTransitive(Strip(body), body, t);
  }

  /** A reply that does not open a fence comes back stripped, and cleaning that
      result again changes nothing. */
  lemma UnfencedIsStripped(response: string)
    requires !StartsWith(Strip(response), FENCE)
    ensures CleanedResponse(response) == Success(Strip(response))
    ensures CleanedResponse(Strip(response)) == Success(Strip(response))
  {
    StripIdempotent(response);
  }

  /** Cleaning is idempotent whenever its result does not itself open a fence. */
  lemma CleanedIsStable(response: string)
    requires CleanedResponse(response).Success?
    requires !StartsWith(CleanedResponse(response).value, FENCE)
    ensures CleanedResponse(CleanedResponse(response).value) == CleanedResponse(response)
  {
    var r := CleanedResponse(response).value;
    StripNoEdgeSpace(r);
  }

  /** For a fenced reply whose first newline is at `i` and last newline at `j`,
      the result is the stripped text strictly between them; when `i == j` (one
      newline only) `rsplit` finds nothing more to cut, and the result is the
      stripped text after that newline. */
  lemma FencedKeepsInterior(response: string, i: nat, j: nat)
    requires StartsWith(Strip(response), FENCE)
    requires i <= j < |Strip(response)|
    requires Strip(response)[i] == '\n' && '\n' !in Strip(response)[..i]
    requires Strip(response)[j] == '\n' && '\n' !in Strip(response)[j + 1..]
    ensures CleanedResponse(response)
         == Success(Strip(if i < j then Strip(response)[i + 1..j] else Strip(response)[i + 1..]))
  {
    var t := Strip(response);
    FirstLineDropped(response, i);
    if i < j {
      LastLineDropped(t, i, j);
    } else {
      var rest := t[i + 1..];
      assert rest == t[j + 1..];
    }
  }

  /** `split("\n", 1)[1]` of a fenced reply is what follows its first newline. */
  lemma FirstLineDropped(response: string, i: nat)
    requires StartsWith(Strip(response), FENCE)
    requires i < |Strip(response)|
    requires Strip(response)[i] == '\n' && '\n' !in Strip(response)[..i]
    ensures CleanedResponse(response) == Success(Strip(RSplitOnce(Strip(response)[i + 1..], '\n')[0]))
  {
    FirstSeparatorSplit(Strip(response), '\n', i);
  }

  /** Cutting the text after the first newline (at `i`) at its last newline
      (at `j` of `t`) leaves what lies between the two. */
  lemma LastLineDropped(t: string, i: nat, j: nat)
    requires i < j < |t| && t[j] == '\n' && '\n' !in t[j + 1..]
    ensures RSplitOnce(t[i + 1..], '\n')[0] == t[i + 1..j]
  {
    var rest := t[i + 1..];
    assert rest[j - i - 1] == '\n';
    assert rest[j - i..] == t[j + 1..];
    LastSeparatorSplit(rest, '\n', j - i - 1);
    assert rest[..j - i - 1] == t[i + 1..j];
  }

  /** A reply made of an opening fence with a language tag, a body, and a
      closing fence, each on its own line, cleans to the stripped body,
      whatever newlines the body itself holds. */
  lemma FencedBlock(tag: string, body: string)
    requires '\n' !in tag
    ensures CleanedResponse(FENCE + tag + "\n" + body + "\n" + FENCE) == Success(Strip(body))
  {
    var head, rest := FENCE + tag, body + "\n" + FENCE;
    var s := head + "\n" + rest;
    assert s == FENCE + tag + "\n" + body + "\n" + FENCE;
    assert NoEdgeSpace(s) by {
      assert s[0] == '`' && s[|s| - 1] == '`';
    }
    StripNoEdgeSpace(s);
    assert s[..|FENCE|] == FENCE;
    SplitAtJoint(head, '\n', rest);
    assert '\n' !in FENCE;
    RSplitAtJoint(body, '\n', FENCE);
  }

  /** A typical fenced reply, "```json\n{"a":1}\n```",
      cleans to exactly {"a":1}. */
  lemma FencedExample(reply: string)
    requires reply == "```json\n{\"a\":1}\n```"
    ensures CleanedResponse(reply) == Success("{\"a\":1}")
  {
    var body := "{\"a\":1}";
    assert reply == FENCE + "json" + "\n" + body + "\n" + FENCE;
    FencedBlock("json", body);
    assert body[0] == '{' && body[|body| - 1] == '}';
    StripNoEdgeSpace(body);
  }
}
