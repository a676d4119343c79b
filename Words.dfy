/** Joining word tokens with single spaces, as string.Join(" ", words) does,
    and splitting a string back into its space-separated tokens. */
module Words {

  /** No space inside the token, so it stays one token once joined. */
  predicate IsToken(w: string)
  {
    ' ' !in w
  }

  /** The words in order, one space between neighbours; "" for no words. */
  function JoinWords(words: seq<string>): (text: string)
  {
    if |words| == 0 then ""
    else if |words| == 1 then words[0]
    else words[0] + " " + JoinWords(words[1..])
  }

  /** The index of the first space in s. */
  function FirstSpace(s: string): (i: nat)
    requires ' ' in s
    ensures i < |s| && s[i] == ' ' && ' ' !in s[..i]
  {
    if s[0] == ' ' then 0 else 1 + FirstSpace(s[1..])
  }

  /** The pieces of s between its spaces, in order. */
  function SplitOnSpace(s: string): (pieces: seq<string>)
    ensures |pieces| >= 1
    decreases |s|
  {
    if ' ' !in s then [s]
    else
      var i := FirstSpace(s);
      [s[..i]] + SplitOnSpace(s[i + 1..])
  }

  /** Joining two non-empty word lists is joining the two joined strings with a space. */
  lemma {:induction false} JoinAppend(a: seq<string>, b: seq<string>)
    requires |a| >= 1 && |b| >= 1
    ensures JoinWords(a + b) == JoinWords(a) + " " + JoinWords(b)
  {
    if |a| == 1 {
      assert (a + b)[1..] == b;
    } else {
      assert (a + b)[1..] == a[1..] + b;
      JoinAppend(a[1..], b);
    }
  }

  /** A space with no space before it is the first space. */
  lemma {:induction false} FirstSpaceAt(s: string, j: nat)
    requires j < |s| && s[j] == ' ' && ' ' !in s[..j]
    ensures FirstSpace(s) == j
  {
    if j > 0 {
      assert s[0] == s[..j][0];
      assert s[1..][..j - 1] == s[..j][1..];
      FirstSpaceAt(s[1..], j - 1);
    }
  }

  /** A token followed by a space and a rest splits into the token and the
      pieces of the rest. */
  lemma SplitAfterToken(token: string, rest: string)
    requires IsToken(token)
    ensures SplitOnSpace(token + " " + rest) == [token] + SplitOnSpace(rest)
  {
    var s := token + " " + rest;
    assert s[..|token|] == token;
    FirstSpaceAt(s, |token|);
    assert s[|token| + 1..] == rest;
  }

  /** Splitting on spaces undoes joining with spaces, so a joined string
      determines its words. */
  lemma {:induction false} SplitJoin(words: seq<string>)
    requires |words| >= 1
    requires forall i :: 0 <= i < |words| ==> IsToken(words[i])
    ensures SplitOnSpace(JoinWords(words)) == words
  {
    if |words| > 1 {
      SplitAfterToken(words[0], JoinWords(words[1..]));
      SplitJoin(words[1..]);
    }
  }

  /** A string that opens with a token and a space has that token as its first piece. */
  lemma FirstPiece(s: string, token: string)
    requires IsToken(token)
    requires |s| > |token| && s[..|token| + 1] == token + " "
    ensures SplitOnSpace(s)[0] == token
  {
    assert s == token + " " + s[|token| + 1..];
    SplitAfterToken(token, s[|token| + 1..]);
  }
}
