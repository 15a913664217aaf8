/**
 * `ensureCompleteSentence` (try_final1.js): a text whose trimmed form ends in
 * sentence-final punctuation is returned as it is, without asking the model;
 * otherwise the model is asked to finish the last sentence, and its reply
 * (an oracle parameter here) is used in place of the text when it repeats
 * the text, or appended to the text with the text's first copy removed.
 */
module Completion {
  import opened Text

  /** `/[.?!…]$/`: the last character is a full stop, question mark, exclamation mark or ellipsis. */
  predicate EndsWithTerminal(t: string) {
    t != [] && (t[|t| - 1] == '.' || t[|t| - 1] == '?' || t[|t| - 1] == '!' || t[|t| - 1] == '…')
  }

  /** `s.startsWith(p)`. */
  predicate StartsWith(s: string, p: string) {
    |p| <= |s| && s[..|p|] == p
  }

  /** `s.replace(pat, "")` with a string pattern: the first occurrence of `pat` is deleted, if any. */
  function RemoveFirst(s: string, pat: string): (r: string)
    ensures |r| <= |s|
  {
    match Find(s, pat, 0)
    case None => s
    case Some(i) => s[..i] + s[i + |pat|..]
  }

  /** The completed text, and whether the model was asked for a completion. */
  datatype Completion = Completion(text: string, asked: bool)

  /**
   * `reply` is the model's answer when it is asked: `None` when the request
   * failed (the text is then kept), otherwise the message content.
   */
  function EnsureCompleteSentence(text: string, reply: Option<string>): (r: Completion)
    ensures r.asked <==> !EndsWithTerminal(Trim(text))
    ensures !r.asked ==> r.text == text
    ensures reply.None? ==> r.text == text
  {
    var t := Trim(text);
    if EndsWithTerminal(t) then Completion(text, false)
    else if reply.None? then Completion(text, true)
    else
      var out := Trim(reply.value);
      if StartsWith(out, t) then Completion(out, true)
      else Completion(text + RemoveFirst(out, t), true)
  }

  /** A non-empty text `p` is a prefix of `s` exactly when `s` is `p` followed by something. */
  lemma {:induction false} PrefixSplit(s: string, p: string)
    requires StartsWith(s, p)
    ensures s == p + s[|p|..]
  {
  }

  /**
   * Completion never loses what the text says: the text's non-space
   * characters come first in the result, whatever the model replies.
   */
  lemma {:induction false} CompletionKeepsText(text: string, reply: Option<string>)
    ensures var r := EnsureCompleteSentence(text, reply).text;
      |NonSpace(text)| <= |NonSpace(r)| && NonSpace(r)[..|NonSpace(text)|] == NonSpace(text)
  {
    var t := Trim(text);
    var r := EnsureCompleteSentence(text, reply).text;
    if !EndsWithTerminal(t) && reply.Some? {
      var out := Trim(reply.value);
      if StartsWith(out, t) {
        PrefixSplit(out, t);
        NonSpaceAppend(t, out[|t|..]);
        TrimKeepsNonSpace(text);
        assert r == out;
      } else {
        NonSpaceAppend(text, RemoveFirst(out, t));
      }
    }
  }
}
