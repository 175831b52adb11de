/**
 * Hostname normalization and validation.
 *
 * IP-literal recognition is a parameter: every result holds for any such predicate.
 */
module Hostnames {
  import opened Prelude

  datatype HostnameError =
    | Empty | TooLong | EmptyLabel | LabelTooLong | InvalidCharacter
    | LeadingOrTrailingHyphen | Wildcard | IpLiteral | RawUnicode

  function Lower(c: char): char {
    if 'A' <= c <= 'Z' then c - 'A' + 'a' else c
  }

  function LowerAll(s: string): string {
    seq(|s|, i requires 0 <= i < |s| => Lower(s[i]))
  }

  function TrimDots(s: string): string {
    if s != [] && s[|s| - 1] == '.' then TrimDots(s[..|s| - 1]) else s
  }

  function Normalize(hostname: string): string {
    LowerAll(TrimDots(hostname))
  }

  /** The dot-separated labels of a string; the empty string has one empty part. */
  function Labels(s: string): (labels: seq<string>)
    ensures labels != []
  {
    if s == [] then [[]]
    else if s[0] == '.' then [[]] + Labels(s[1..])
    else
      var rest := Labels(s[1..]);
      [[s[0]] + rest[0]] + rest[1..]
  }

  predicate LabelChar(c: char) {
    'a' <= c <= 'z' || '0' <= c <= '9' || c == '-'
  }

  function CheckLabel(part: string): Option<HostnameError> {
    if part == [] then Some(EmptyLabel)
    else if |part| > 63 then Some(LabelTooLong)
    else if part[0] == '-' || part[|part| - 1] == '-' then Some(LeadingOrTrailingHyphen)
    else if exists i :: 0 <= i < |part| && !LabelChar(part[i]) then Some(InvalidCharacter)
    else None
  }

  /** The first label error, if any. */
  function CheckLabels(labels: seq<string>): Option<HostnameError> {
    if labels == [] then None
    else if CheckLabel(labels[0]).Some? then CheckLabel(labels[0])
    else CheckLabels(labels[1..])
  }

  predicate IsAscii(s: string) {
    forall i :: 0 <= i < |s| ==> s[i] < 128 as char
  }

  function Validate(isIp: string -> bool, hostname: string): Result<string, HostnameError> {
    var normalized := Normalize(hostname);
    if normalized == [] then Err(Empty)
    else if !IsAscii(normalized) then Err(RawUnicode)
    else if '*' in normalized then Err(Wildcard)
    else if isIp(normalized) then Err(IpLiteral)
    else if |normalized| > 253 then Err(TooLong)
    else
      match CheckLabels(Labels(normalized))
      case Some(error) => Err(error)
      case None => Ok(normalized)
  }

  // ---------------------------------------------------------------------------------------------
  // Canonical hostnames, without splitting
  // ---------------------------------------------------------------------------------------------

  /** `s[i..j]` is a whole label: it starts and ends at a dot or an end of `s` and holds no dot. */
  ghost predicate WholeLabel(s: string, i: nat, j: nat) {
    && i <= j <= |s|
    && (i == 0 || s[i - 1] == '.')
    && (j == |s| || s[j] == '.')
    && forall k :: i <= k < j ==> s[k] != '.'
  }

  ghost predicate GoodLabel(part: string) {
    && 1 <= |part| <= 63
    && part[0] != '-' && part[|part| - 1] != '-'
    && forall k :: 0 <= k < |part| ==> 'a' <= part[k] <= 'z' || '0' <= part[k] <= '9' || part[k] == '-'
  }

  ghost predicate Canonical(isIp: string -> bool, s: string) {
    && 1 <= |s| <= 253
    && !isIp(s)
    && forall i: nat, j: nat :: WholeLabel(s, i, j) ==> GoodLabel(s[i..j])
  }

  /** The normal form is the text without its trailing dots, with ASCII capitals in lower case. */
  lemma {:induction false} NormalIs(text: string, dots: string)
    requires (text == [] || text[|text| - 1] != '.') && forall k :: 0 <= k < |dots| ==> dots[k] == '.'
    ensures
      var n := Normalize(text + dots);
      && |n| == |text|
      && forall k :: 0 <= k < |text| ==> n[k] == if 'A' <= text[k] <= 'Z' then (text[k] as int + 32) as char else text[k]
    decreases |dots|
  {
    if dots == [] {
      assert text + dots == text;
    } else {
      var m := |dots| - 1;
      NormalIs(text, dots[..m]);
      assert (text + dots)[..|text + dots| - 1] == text + dots[..m];
    }
  }

  /** The error of the first label that is not good: its emptiness, length, hyphens and characters, in that order. */
  ghost predicate LabelFails(labels: seq<string>, error: HostnameError) {
    exists n :: FailsAt(labels, n, error)
  }

  ghost predicate PartFails(part: string, error: HostnameError) {
    if part == [] then error == EmptyLabel
    else if |part| > 63 then error == LabelTooLong
    else if part[0] == '-' || part[|part| - 1] == '-' then error == LeadingOrTrailingHyphen
    else !GoodLabel(part) && error == InvalidCharacter
  }

  lemma CheckedPart(part: string, error: HostnameError)
    ensures CheckLabel(part) == Some(error) <==> PartFails(part, error)
    ensures CheckLabel(part).None? <==> GoodLabel(part)
  {
  }

  /** Label `n` is the first that is not good, with this error. */
  ghost predicate FailsAt(labels: seq<string>, n: int, error: HostnameError) {
    0 <= n < |labels| && (forall j :: 0 <= j < n ==> GoodLabel(labels[j])) && PartFails(labels[n], error)
  }

  /** After a good label, the labels fail as the rest of them does. */
  lemma FailsLater(first: string, tail: seq<string>, error: HostnameError)
    requires GoodLabel(first)
    ensures LabelFails([first] + tail, error) <==> LabelFails(tail, error)
  {
    CheckedPart(first, error);
    hide GoodLabel, PartFails;
    var labels := [first] + tail;
    if n :| FailsAt(tail, n, error) {
      forall j | 0 <= j < n + 1 ensures GoodLabel(labels[j]) { if j > 0 { assert labels[j] == tail[j - 1]; } }
      assert FailsAt(labels, n + 1, error);
    }
    if n :| FailsAt(labels, n, error) {
      forall j | 0 <= j < n - 1 ensures GoodLabel(tail[j]) { assert tail[j] == labels[j + 1]; }
      assert FailsAt(tail, n - 1, error);
    }
  }

  lemma {:induction false} LabelsFailExactly(labels: seq<string>, error: HostnameError)
    ensures CheckLabels(labels) == Some(error) <==> LabelFails(labels, error)
  {
    hide GoodLabel, PartFails, CheckLabel;
    if labels != [] {
      CheckedPart(labels[0], error);
      if GoodLabel(labels[0]) {
        LabelsFailExactly(labels[1..], error);
        FailsLater(labels[0], labels[1..], error);
        assert [labels[0]] + labels[1..] == labels;
      } else if PartFails(labels[0], error) {
        assert FailsAt(labels, 0, error);
      }
    }
  }

  /** Which error a hostname is refused with: the tests come in this order. */
  lemma RefusedExactly(isIp: string -> bool, hostname: string, error: HostnameError)
    ensures
      var n := Normalize(hostname);
      Validate(isIp, hostname) == Err(error) <==>
        if n == [] then error == Empty
        else if exists k :: 0 <= k < |n| && n[k] as int >= 128 then error == RawUnicode
        else if '*' in n then error == Wildcard
        else if isIp(n) then error == IpLiteral
        else if |n| > 253 then error == TooLong
        else LabelFails(Labels(n), error)
  {
    LabelsFailExactly(Labels(Normalize(hostname)), error);
  }

  /** Every label splitting yields is a whole label. */
  lemma {:induction false} ListedIsWhole(s: string, n: nat) returns (i: nat, j: nat)
    requires n < |Labels(s)|
    ensures WholeLabel(s, i, j) && s[i..j] == Labels(s)[n]
    ensures i == 0 <==> n == 0
  {
    if s == [] || (s[0] == '.' && n == 0) {
      i, j := 0, 0;
    } else if s[0] == '.' {
      i, j := ListedIsWhole(s[1..], n - 1);
      i, j := i + 1, j + 1;
      SliceOfTail(s, i, j);
    } else {
      i, j := ListedIsWhole(s[1..], n);
      i, j := if n == 0 then 0 else i + 1, j + 1;
      if n == 0 {
        assert s[0..j] == [s[0]] + s[1..][0..j - 1];
      } else {
        SliceOfTail(s, i, j);
      }
    }
  }

  lemma SliceOfTail(s: string, i: nat, j: nat)
    requires 0 < i <= j <= |s|
    ensures s[1..][i - 1..j - 1] == s[i..j]
  {
  }

  /** Splitting yields every whole label. */
  lemma {:induction false} WholeIsListed(s: string, i: nat, j: nat) returns (n: nat)
    requires WholeLabel(s, i, j)
    ensures n < |Labels(s)| && Labels(s)[n] == s[i..j]
    ensures i == 0 <==> n == 0
  {
    if i == 0 {
      var i', j' := ListedIsWhole(s, 0);
      assert j' == j;
      n := 0;
    } else {
      n := WholeIsListed(s[1..], i - 1, j - 1);
      SliceOfTail(s, i, j);
      assert s[i - 1] == '.';
      n := if s[0] == '.' then n + 1 else n;
    }
  }

  lemma {:induction false} CheckLabelsExactly(labels: seq<string>)
    ensures CheckLabels(labels).None? <==> forall part :: part in labels ==> GoodLabel(part)
  {
    if labels != [] {
      CheckLabelsExactly(labels[1..]);
      assert forall part :: part in labels <==> part == labels[0] || part in labels[1..];
      assert CheckLabel(labels[0]).None? <==> GoodLabel(labels[0]);
    }
  }

  /** Good labels leave only lowercase letters, digits, hyphens and dots. */
  lemma {:induction false} GoodLabelsGoodChars(s: string)
    requires forall part :: part in Labels(s) ==> forall k :: 0 <= k < |part| ==> LabelChar(part[k])
    ensures forall k :: 0 <= k < |s| ==> LabelChar(s[k]) || s[k] == '.'
  {
    if s != [] {
      var rest := Labels(s[1..]);
      if s[0] == '.' {
        forall part | part in rest ensures forall k :: 0 <= k < |part| ==> LabelChar(part[k]) {
          assert part in Labels(s);
        }
      } else {
        var first := Labels(s)[0];
        assert first in Labels(s) && first == [s[0]] + rest[0];
        assert LabelChar(first[0]);
        forall part | part in rest ensures forall k :: 0 <= k < |part| ==> LabelChar(part[k]) {
          if part in rest[1..] {
            assert part in Labels(s);
          } else {
            assert part == rest[0] == first[1..];
          }
        }
      }
      GoodLabelsGoodChars(s[1..]);
      assert forall k :: 0 < k < |s| ==> s[k] == s[1..][k - 1];
    }
  }

  lemma CanonicalMeansGoodLabels(isIp: string -> bool, s: string)
    ensures Canonical(isIp, s) <==> 1 <= |s| <= 253 && !isIp(s) && forall part :: part in Labels(s) ==> GoodLabel(part)
  {
    forall i: nat, j: nat | WholeLabel(s, i, j) ensures s[i..j] in Labels(s) {
      var n := WholeIsListed(s, i, j);
    }
    forall part | part in Labels(s) ensures exists i: nat, j: nat :: WholeLabel(s, i, j) && s[i..j] == part {
      var n :| 0 <= n < |Labels(s)| && Labels(s)[n] == part;
      var i, j := ListedIsWhole(s, n);
    }
  }

  /** Validation accepts a hostname exactly when its normal form is canonical, and returns that form. */
  lemma ValidatesExactlyCanonical(isIp: string -> bool, hostname: string)
    ensures Validate(isIp, hostname).Ok? <==> Canonical(isIp, Normalize(hostname))
    ensures Validate(isIp, hostname).Ok? ==> Validate(isIp, hostname).value == Normalize(hostname)
  {
    var s := Normalize(hostname);
    CanonicalMeansGoodLabels(isIp, s);
    CheckLabelsExactly(Labels(s));
    if Canonical(isIp, s) {
      GoodLabelsGoodChars(s);
    }
  }

  /** A trailing dot leaves an empty last label. */
  lemma EmptyLastLabel(s: string)
    ensures s != [] && s[|s| - 1] == '.' ==> WholeLabel(s, |s|, |s|)
  {
  }

  /** A canonical hostname is its own normal form. */
  lemma CanonicalIsNormal(isIp: string -> bool, s: string)
    requires Canonical(isIp, s)
    ensures Normalize(s) == s
    ensures forall k :: 0 <= k < |s| ==> LabelChar(s[k]) || s[k] == '.'
  {
    EmptyLastLabel(s);
    CanonicalMeansGoodLabels(isIp, s);
    GoodLabelsGoodChars(s);
    assert TrimDots(s) == s;
    assert LowerAll(s) == s;
  }

  /** Validating a validated hostname returns it unchanged. */
  lemma ValidationIsIdempotent(isIp: string -> bool, hostname: string)
    requires Validate(isIp, hostname).Ok?
    ensures Validate(isIp, Validate(isIp, hostname).value) == Validate(isIp, hostname)
  {
    ValidatesExactlyCanonical(isIp, hostname);
    CanonicalIsNormal(isIp, Normalize(hostname));
    ValidatesExactlyCanonical(isIp, Normalize(hostname));
  }

  /** Normalization is idempotent on every string, valid hostname or not. */
  lemma NormalizationIsIdempotent(hostname: string)
    ensures Normalize(Normalize(hostname)) == Normalize(hostname)
  {
    var trimmed := TrimDots(hostname);
    NoTrailingDot(hostname);
    var s := LowerAll(trimmed);
    assert TrimDots(s) == s;
    assert LowerAll(s) == s;
  }

  lemma {:induction false} NoTrailingDot(s: string)
    ensures TrimDots(s) == [] || TrimDots(s)[|TrimDots(s)| - 1] != '.'
  {
    if s != [] && s[|s| - 1] == '.' { NoTrailingDot(s[..|s| - 1]); }
  }
}
