/**
 * The flattened page text. Every script builds it with `' '.join(full_text)`
 * over the WORD texts, while a counter advances by `len(word_text) + 1` per
 * word; this module proves that the two agree.
 */
module Text {

  /** Python's `' '.join(words)`. */
  function Join(words: seq<string>): string
  {
    if |words| == 0 then ""
    else if |words| == 1 then words[0]
    else Join(words[..|words| - 1]) + " " + words[|words| - 1]
  }

  /** The counter `text_start_index` before word `i` is read: the sum of
      `len(words[j]) + 1` over all `j < i`. */
  function Offset(words: seq<string>, i: nat): nat
    requires i <= |words|
  {
    if i == 0 then 0 else Offset(words, i - 1) + |words[i - 1]| + 1
  }

  /** Python's `s.split(' ')`, taken apart from the right. */
  function Split(s: string): seq<string>
    decreases |s|
  {
    var k := LastSpace(s);
    if k < 0 then [s] else Split(s[..k]) + [s[k + 1..]]
  }

  /** The position of the last ' ' in `s`, or -1 when there is none. */
  function LastSpace(s: string): (k: int)
    ensures -1 <= k < |s|
    ensures 0 <= k ==> s[k] == ' '
    ensures forall j :: k < j < |s| ==> s[j] != ' '
  {
    if |s| == 0 then -1
    else if s[|s| - 1] == ' ' then |s| - 1
    else LastSpace(s[..|s| - 1])
  }

  lemma {:induction false} OffsetOfPrefix(words: seq<string>, n: nat, i: nat)
    requires i <= n <= |words|
    ensures Offset(words[..n], i) == Offset(words, i)
  {
    if i > 0 {
      OffsetOfPrefix(words, n, i - 1);
      assert words[..n][i - 1] == words[i - 1];
    }
  }

  /** The joined text is one character shorter than the counter's final value
      (no trailing separator), and empty when there are no words. */
  lemma {:induction false} JoinLength(words: seq<string>)
    ensures |words| == 0 ==> Join(words) == ""
    ensures |words| > 0 ==> |Join(words)| + 1 == Offset(words, |words|)
  {
    var n := |words|;
    if n > 1 {
      JoinLength(words[..n - 1]);
      OffsetOfPrefix(words, n - 1, n - 1);
    }
  }

  /** The offset/join correspondence: word `i` occurs in the joined text
      exactly at the counter value recorded for it, and is followed by the
      single separator unless it is the last word. */
  lemma {:induction false} JoinWordAt(words: seq<string>, i: nat)
    requires i < |words|
    ensures Offset(words, i) + |words[i]| <= |Join(words)|
    ensures Join(words)[Offset(words, i)..Offset(words, i) + |words[i]|] == words[i]
    ensures i + 1 < |words| ==>
              Offset(words, i) + |words[i]| < |Join(words)| &&
              Join(words)[Offset(words, i) + |words[i]|] == ' '
  {
    var n := |words|;
    if n > 1 {
      var init := words[..n - 1];
      var j := Join(init);
      assert Join(words) == j + " " + words[n - 1];
      JoinLength(init);
      OffsetOfPrefix(words, n - 1, n - 1);
      assert Offset(words, n - 1) == |j| + 1;
      if i < n - 1 {
        JoinWordAt(init, i);
        OffsetOfPrefix(words, n - 1, i);
        assert init[i] == words[i];
        var a := Offset(words, i);
        assert Join(words)[a..a + |words[i]|] == j[a..a + |words[i]|];
        if i + 1 == n - 1 {
          assert Offset(words, n - 1) == a + |words[i]| + 1;
        } else {
          OffsetOfPrefix(words, n - 1, i + 1);
        }
      }
    }
  }

  /** Word intervals are disjoint and strictly increasing: each word ends,
      followed by at least one separator, before any later word starts. */
  lemma {:induction false} OffsetIncreasing(words: seq<string>, i: nat, j: nat)
    requires i < j <= |words|
    ensures Offset(words, i) + |words[i]| < Offset(words, j)
  {
    if j > i + 1 {
      OffsetIncreasing(words, i, j - 1);
    }
  }

  /** Splitting the joined text on ' ' gives back the words, provided no
      word holds a space itself and there is at least one word (Python's
      `''.split(' ')` is `['']`, not `[]`). */
  lemma {:induction false} SplitJoin(words: seq<string>)
    requires |words| > 0
    requires forall i :: 0 <= i < |words| ==> ' ' !in words[i]
    ensures Split(Join(words)) == words
  {
    var n := |words|;
    if n > 1 {
      var init := words[..n - 1];
      var j := Join(init);
      var s := Join(words);
      var w := words[n - 1];
      assert s == j + " " + w;
      var k := LastSpace(s);
      assert s[|j|] == ' ';
      assert k == |j|;
      assert s[..k] == j;
      assert s[k + 1..] == w;
      SplitJoin(init);
    }
  }

  /** The zero-word case of the round trip, as Python has it. */
  lemma SplitJoinEmpty()
    ensures Split(Join([])) == [""]
  {
  }

  /** The joined text is empty only for no words, or for one empty word:
      two words always leave their separator. */
  lemma JoinEmpty(words: seq<string>)
    ensures Join(words) == "" <==> |words| == 0 || (|words| == 1 && words[0] == "")
  {
    if |words| > 1 {
      assert |Join(words)| >= 1;
    }
  }
}
