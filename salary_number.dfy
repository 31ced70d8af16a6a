/** The number the salary counter animates: `animateNumber` looks for the
    leftmost match of the pattern `(\d+\.?\d*)` in an element's text and keeps
    the text before and after it, so that only the number itself is counted
    up. The scan below is that match written out; the counting itself is not
    part of this module. */
module SalaryNumber {

  datatype Option<T> = None | Some(value: T)

  /** `\d` in a pattern without the `u` flag: an ASCII digit. */
  predicate IsDigit(c: char)
  {
    '0' <= c <= '9'
  }

  predicate HasDigit(s: string)
  {
    exists k :: 0 <= k < |s| && IsDigit(s[k])
  }

  /** The strings `\d+\.?\d*` matches in full: they start with a digit and
      hold only digits and at most one '.'. */
  predicate IsNumeral(m: string)
  {
    && |m| > 0
    && IsDigit(m[0])
    && (forall k :: 0 <= k < |m| ==> IsDigit(m[k]) || m[k] == '.')
    && (forall j, k :: 0 <= j < |m| && 0 <= k < |m| && m[j] == '.' && m[k] == '.' ==> j == k)
  }

  /** Where the scan for a match stops: the first digit at or after `from`,
      or the end of `s` when no digit follows. */
  function FirstDigit(s: string, from: nat): (k: nat)
    requires from <= |s|
    ensures from <= k <= |s|
    ensures forall j :: from <= j < k ==> !IsDigit(s[j])
    ensures k < |s| ==> IsDigit(s[k])
    decreases |s| - from
  {
    if from == |s| || IsDigit(s[from]) then from else FirstDigit(s, from + 1)
  }

  /** The end of the longest run of digits that starts at `from` (a greedy `\d*`). */
  function DigitsEnd(s: string, from: nat): (e: nat)
    requires from <= |s|
    ensures from <= e <= |s|
    ensures forall j :: from <= j < e ==> IsDigit(s[j])
    ensures e < |s| ==> !IsDigit(s[e])
    decreases |s| - from
  {
    if from < |s| && IsDigit(s[from]) then DigitsEnd(s, from + 1) else from
  }

  /** The end of the greedy match of `\d+\.?\d*` that starts at the digit `s[k]`. */
  function NumberEnd(s: string, k: nat): (e: nat)
    requires k < |s| && IsDigit(s[k])
    ensures k < e <= |s|
  {
    var d := DigitsEnd(s, k);
    if d < |s| && s[d] == '.' then DigitsEnd(s, d + 1) else d
  }

  /** The greedy match is a numeral, and no longer stretch of the text that
      starts at the same place is one: the match is maximal at its end. */
  lemma NumberEndIsLongestMatch(s: string, k: nat)
    requires k < |s| && IsDigit(s[k])
    ensures IsNumeral(s[k..NumberEnd(s, k)])
    ensures forall e :: NumberEnd(s, k) < e <= |s| ==> !IsNumeral(s[k..e])
  {
    var d := DigitsEnd(s, k);
    var e := NumberEnd(s, k);
    forall e' | e < e' <= |s| ensures !IsNumeral(s[k..e']) {
      var m' := s[k..e'];
      assert m'[e - k] == s[e];
      if s[e] == '.' {
        assert m'[d - k] == s[d];
      }
    }
  }

  /** Where a successful match starts and how long it is, counted in
      characters (Unicode scalar values); `match.index` and `match[0].length`
      count the same positions in UTF-16 code units. */
  datatype Match = Match(index: nat, length: nat)

  /** `text.match(/(\d+\.?\d*)/)`: the leftmost match, or none (`null`)
      exactly when the text holds no digit. */
  function FindNumber(text: string): (r: Option<Match>)
    ensures r.None? <==> !HasDigit(text)
    ensures r.Some? ==> r.value.index + r.value.length <= |text|
    ensures r.Some? ==> forall j :: 0 <= j < r.value.index ==> !IsDigit(text[j])
    ensures r.Some? ==> IsNumeral(text[r.value.index..r.value.index + r.value.length])
    ensures r.Some? ==> forall e :: r.value.index + r.value.length < e <= |text| ==>
      !IsNumeral(text[r.value.index..e])
  {
    var k := FirstDigit(text, 0);
    if k == |text| then None
    else
      NumberEndIsLongestMatch(text, k);
      Some(Match(k, NumberEnd(text, k) - k))
  }

  /** The text split around the number: `prefix`, the matched `number`, `suffix`. */
  datatype Parts = Parts(prefix: string, number: string, suffix: string)

  /** The prefix and suffix `animateNumber` keeps around the number it
      counts up; none when the text has no digit, in which case the element
      is left as it is. */
  function SplitNumber(text: string): (r: Option<Parts>)
    ensures r.None? <==> !HasDigit(text)
    ensures r.Some? ==> r.value.prefix + r.value.number + r.value.suffix == text
    ensures r.Some? ==> !HasDigit(r.value.prefix) && IsNumeral(r.value.number)
    ensures r.Some? ==> forall n :: 0 < n <= |r.value.suffix| ==>
      !IsNumeral(r.value.number + r.value.suffix[..n])
  {
    match FindNumber(text)
    case None => None
    case Some(m) =>
      var i, e := m.index, m.index + m.length;
      SlicesJoin(text, i, e);
      Some(Parts(text[..i], text[i..e], text[e..]))
  }

  /** Cutting `text` at `i` and `e` loses nothing; the first piece has no
      digit when none comes before `i`; and the middle piece extended by `n`
      characters of the last is the slice `text[i..e + n]`. */
  lemma SlicesJoin(text: string, i: nat, e: nat)
    requires i <= e <= |text|
    ensures text[..i] + text[i..e] + text[e..] == text
    ensures (forall j :: 0 <= j < i ==> !IsDigit(text[j])) ==> !HasDigit(text[..i])
    ensures forall n :: 0 < n <= |text| - e ==> text[i..e] + text[e..][..n] == text[i..e + n]
  {
    if forall j :: 0 <= j < i ==> !IsDigit(text[j]) {
      forall j | 0 <= j < i ensures !IsDigit(text[..i][j]) {
        assert text[..i][j] == text[j];
      }
    }
    forall n | 0 < n <= |text| - e ensures text[i..e] + text[e..][..n] == text[i..e + n] {
      assert text[e..][..n] == text[e..e + n];
    }
  }

  /** No match can start inside the prefix: every numeral starts with a digit. */
  lemma NoEarlierMatch(text: string)
    requires SplitNumber(text).Some?
    ensures forall i, j :: 0 <= i <= j <= |text| && i < |SplitNumber(text).value.prefix| ==>
      !IsNumeral(text[i..j])
  {
  }
}
