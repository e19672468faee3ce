/** The two text utilities at the top of app.py: `_mask`, which hides an
    API key for the health report, and `_norm`, which canonicalises a prompt
    for the answer cache. */
module Infra {
  import opened Results
  import opened Strings

  const MaskEllipsis: char := '…'

  /** `_mask(s)`: "NONE" for a missing or empty key; otherwise the stripped
      key's first six and last four characters around an ellipsis when it is
      longer than ten characters, and "****" when it is not. */
  function Mask(key: Option<string>): (r: string)
    ensures key == None || key == Some("") ==> r == "NONE"
    ensures key.Some? && key.value != "" ==>
      var t := Strip(key.value);
      if |t| > 10 then |r| == 11 && r[..6] == t[..6] && r[6] == MaskEllipsis && r[7..] == t[|t| - 4..]
      else r == "****"
  {
    match key
    case None => "NONE"
    case Some(s) =>
      if s == "" then "NONE"
      else
        var t := Strip(s);
        if |t| > 10 then t[..6] + [MaskEllipsis] + t[|t| - 4..] else "****"
  }

  /** The mask of a present key never shows more than ten of its characters:
      two keys whose stripped forms have the same first six and last four
      characters mask alike, whatever lies between. */
  lemma MaskHidesMiddle(a: string, b: string)
    requires a != "" && b != ""
    requires |Strip(a)| > 10 && |Strip(b)| > 10
    requires Strip(a)[..6] == Strip(b)[..6]
    requires Strip(a)[|Strip(a)| - 4..] == Strip(b)[|Strip(b)| - 4..]
    ensures Mask(Some(a)) == Mask(Some(b))
  {
  }

  /** Masking depends only on the stripped key: surrounding whitespace never
      changes the mask of a key that is not blank. */
  lemma MaskIgnoresSurroundingSpace(s: string)
    requires Strip(s) != ""
    ensures s != ""
    ensures Mask(Some(s)) == Mask(Some(Strip(s)))
  {
    StripIdempotent(s);
  }

  /** Every whitespace character is a plain space that directly follows a
      non-whitespace character. The condition only looks backwards, so every
      prefix of such a text has it too. */
  predicate SingleSpaced(s: string) {
    forall i :: 0 <= i < |s| && IsSpace(s[i]) ==> s[i] == ' ' && 0 < i && !IsSpace(s[i - 1])
  }

  lemma SingleSpacedPrefix(s: string, n: nat)
    requires SingleSpaced(s) && n <= |s|
    ensures SingleSpaced(s[..n])
  {
  }

  lemma {:induction false} JoinedWordsSingleSpaced(ws: seq<string>)
    requires forall k :: 0 <= k < |ws| ==> ws[k] != [] && NoSpace(ws[k])
    ensures SingleSpaced(JoinWith(ws, ' '))
  {
    if |ws| > 1 {
      JoinedWordsSingleSpaced(ws[1..]);
      var head, tail := ws[0], JoinWith(ws[1..], ' ');
      var j := JoinWith(ws, ' ');
      assert j == head + [' '] + tail;
      forall i | 0 <= i < |j| && IsSpace(j[i])
        ensures j[i] == ' ' && 0 < i && !IsSpace(j[i - 1])
      {
        if i > |head| {
          assert j[i] == tail[i - |head| - 1];
          if i - 1 > |head| { assert j[i - 1] == tail[i - |head| - 2]; }
        }
      }
    }
  }

  /** Every character of a join is the separator or a character of a part. */
  lemma {:induction false} JoinedChars(ws: seq<string>, src: string)
    requires forall k, i :: 0 <= k < |ws| && 0 <= i < |ws[k]| ==> ws[k][i] in src
    ensures forall i :: 0 <= i < |JoinWith(ws, ' ')| ==> JoinWith(ws, ' ')[i] == ' ' || JoinWith(ws, ' ')[i] in src
  {
    if |ws| == 1 {
      assert forall i :: 0 <= i < |ws[0]| ==> ws[0][i] in src;
    } else if |ws| > 1 {
      JoinedChars(ws[1..], src);
      var head, tail := ws[0], JoinWith(ws[1..], ' ');
      var j := JoinWith(ws, ' ');
      forall i | 0 <= i < |j| ensures j[i] == ' ' || j[i] in src {
        if i < |head| {
          assert j[i] == head[i];
        } else if i > |head| {
          assert j[i] == tail[i - |head| - 1];
        }
      }
    }
  }

  const NormLimit: nat := 2000

  /** The joined, lower-cased words of a prompt before truncation. */
  function NormWords(s: string): string {
    JoinWith(Words(Lower(s)), ' ')
  }

  /** `_norm(s)`: the prompt lower-cased, its whitespace runs collapsed to
      single spaces with none leading, and cut to 2000 characters. */
  function Norm(s: string): (r: string)
    ensures |r| <= NormLimit
    ensures SingleSpaced(r)
    ensures NoUpper(r)
    ensures |r| <= |NormWords(s)| && r == NormWords(s)[..|r|]
    ensures |r| < NormLimit ==> r == NormWords(s)
  {
    var j := NormWords(s);
    var r := if |j| <= NormLimit then j else j[..NormLimit];
    JoinedWordsSingleSpaced(Words(Lower(s)));
    SingleSpacedPrefix(j, |r|);
    WordsChars(Lower(s));
    JoinedChars(Words(Lower(s)), Lower(s));
    LowerSpec(s);
    assert forall i :: 0 <= i < |r| ==> r[i] == j[i];
    r
  }

  lemma WordsChars(s: string)
    ensures forall k, i :: 0 <= k < |Words(s)| && 0 <= i < |Words(s)[k]| ==> Words(s)[k][i] in s
  {
    WordsCharsFrom(s);
  }

  lemma {:induction false} WordsCharsFrom(s: string)
    ensures forall k, i :: 0 <= k < |Words(s)| && 0 <= i < |Words(s)[k]| ==> Words(s)[k][i] in s
  {
    if s != [] {
      WordsCharsFrom(s[1..]);
      assert forall c :: c in s[1..] ==> c in s;
    }
  }

  /** Normalisation ignores letter case. */
  lemma NormIgnoresCase(s: string)
    ensures Norm(Lower(s)) == Norm(s)
  {
    LowerSpec(s);
  }

  /** A normalised prompt that was not cut short normalises to itself. */
  lemma NormIdempotent(s: string)
    requires |NormWords(s)| <= NormLimit
    ensures Norm(Norm(s)) == Norm(s)
  {
    var r := Norm(s);
    var ws := Words(Lower(s));
    assert r == JoinWith(ws, ' ');
    assert NoUpper(r);
    assert Lower(r) == r;
    WordsJoinRoundTrip(ws);
  }
}
