/**
  The two string corruptors of the generator, `add_typo` and
  `random_case_variation`, with every random draw passed in.
 */
module Corruption {
  import opened Text

  /** A draw of `random.choice(string.ascii_lowercase)`. */
  type Letter = c: char | 'a' <= c <= 'z' witness 'a'

  /**
    The draws `add_typo` makes: `NoTypo` when `random.random() > 0.3`;
    otherwise the position draw of `random.randint(0, len - 1)`, given as
    any natural and reduced modulo the length (so every position, and
    only those, can occur), and the replacement letter.
   */
  datatype TypoDraw = NoTypo | Typo(pos: nat, letter: Letter)

  /** Whether `add_typo` changes anything: text of three or more characters and a firing draw. */
  predicate TypoFires(text: string, typo: TypoDraw) {
    |text| >= 3 && typo.Typo?
  }

  /** The position `add_typo` overwrites when it fires. */
  function TypoPosition(text: string, typo: TypoDraw): (p: nat)
    requires TypoFires(text, typo)
    ensures p < |text|
  {
    typo.pos % |text|
  }

  /**
    `add_typo`: unchanged for empty or short text and for the "no typo"
    draw; otherwise the character at the drawn position is replaced by a
    lower-case letter (which may equal the one it replaces).
   */
  function AddTypo(text: string, typo: TypoDraw): (r: string)
    ensures |r| == |text|
    ensures !TypoFires(text, typo) ==> r == text
    ensures TypoFires(text, typo) ==>
              var p := TypoPosition(text, typo);
              r == text[p := typo.letter] && IsLower(r[p])
  {
    if |text| < 3 || typo.NoTypo? then text
    else
      var p := typo.pos % |text|;
      text[..p] + [typo.letter] + text[p + 1..]
  }

  /** The number of positions at which two equally long strings differ. */
  function Distance(a: string, b: string): nat
    requires |a| == |b|
    decreases |a|
  {
    if a == [] then 0
    else (if a[0] == b[0] then 0 else 1) + Distance(a[1..], b[1..])
  }

  lemma {:induction false} DistanceToSelf(a: string)
    ensures Distance(a, a) == 0
    decreases |a|
  {
    if a != [] {
      DistanceToSelf(a[1..]);
    }
  }

  /** Overwriting one position changes the distance by one exactly when the character differs. */
  lemma {:induction false} DistanceOfPointUpdate(a: string, p: nat, c: char)
    requires p < |a|
    ensures Distance(a, a[p := c]) == if a[p] == c then 0 else 1
    decreases |a|
  {
    var b := a[p := c];
    if p == 0 {
      assert b[1..] == a[1..];
      DistanceToSelf(a[1..]);
    } else {
      assert b[1..] == a[1..][p - 1 := c];
      DistanceOfPointUpdate(a[1..], p - 1, c);
    }
  }

  /**
    A typo is a single-character edit: the result is at distance at most one
    from the input, and exactly one when a firing draw brings a new letter.
   */
  lemma TypoIsSingleEdit(text: string, typo: TypoDraw)
    ensures Distance(text, AddTypo(text, typo)) <= 1
    ensures Distance(text, AddTypo(text, typo)) == 1 <==>
              TypoFires(text, typo) && text[TypoPosition(text, typo)] != typo.letter
  {
    if TypoFires(text, typo) {
      DistanceOfPointUpdate(text, TypoPosition(text, typo), typo.letter);
    } else {
      DistanceToSelf(text);
    }
  }

  /** The three styles of `random_case_variation`, in the order of its list. */
  datatype CaseStyle = UpperCase | LowerCase | TitleCase

  /**
    `random_case_variation`: empty text is returned as is; otherwise the
    chosen style is applied. Whatever the style, only the case of letters
    changes, so the result equals the input ignoring case.
   */
  function RandomCaseVariation(text: string, style: CaseStyle): (r: string)
    ensures text == "" ==> r == ""
    ensures |r| == |text| && Lower(r) == Lower(text)
    ensures forall i :: 0 <= i < |text| && !IsLetter(text[i]) ==> r[i] == text[i]
    ensures text != "" && style == UpperCase ==> NoLower(r)
    ensures text != "" && style == LowerCase ==> NoUpper(r)
    ensures text != "" && style == TitleCase ==> IsTitleCased(r)
  {
    if text == "" then text
    else
      match style
      case UpperCase => Upper(text)
      case LowerCase => Lower(text)
      case TitleCase => Title(text)
  }

  /** The three styles are idempotent: re-casing a re-cased text changes nothing. */
  lemma CaseVariationIdempotent(text: string, style: CaseStyle)
    ensures RandomCaseVariation(RandomCaseVariation(text, style), style)
         == RandomCaseVariation(text, style)
  {
    var r := RandomCaseVariation(text, style);
    var rr := RandomCaseVariation(r, style);
    assert |rr| == |r|;
    forall i | 0 <= i < |r| ensures rr[i] == r[i] {
      if text != "" && style == TitleCase {
        assert i > 0 ==> (IsLetter(r[i - 1]) <==> IsLetter(text[i - 1]));
      }
    }
  }
}
