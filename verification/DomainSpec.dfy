/** Domain names as lists of labels: dotted text, wire form and the RFC 1035 grammar. */
module DomainSpec {

  import opened Words
  import opened Options

  const DOT: Byte := 46
  const SPACE: Byte := 32
  const STAR: Byte := 42
  const HYPHEN: Byte := 45
  const MAX_NAME_LENGTH: nat := 255

  type Label = seq<Byte>

  // ---------------------------------------------------------------- text

  predicate Dotless(l: Label) {
    DOT !in l
  }

  /** Dotted text; one label or more. */
  function Join(labels: seq<Label>): seq<Byte>
    requires labels != []
  {
    if |labels| == 1 then labels[0] else labels[0] + [DOT] + Join(labels[1..])
  }

  /** The labels between the dots. */
  function Split(text: seq<Byte>): (labels: seq<Label>)
    ensures labels != []
  {
    if text == [] then [[]]
    else
      var rest := Split(text[1..]);
      if text[0] == DOT then [[]] + rest else Prefixed(text[0], rest)
  }

  /** One more character in front of the first label. */
  function Prefixed(c: Byte, labels: seq<Label>): (r: seq<Label>)
    requires labels != []
  {
    [[c] + labels[0]] + labels[1..]
  }

  lemma PrefixedAppend(c: Byte, a: seq<Label>, b: seq<Label>)
    requires a != []
    ensures Prefixed(c, a + b) == Prefixed(c, a) + b
  {}

  lemma {:induction false} SplitDotless(text: seq<Byte>)
    ensures forall l :: l in Split(text) ==> Dotless(l)
  {
    if text != [] {
      SplitDotless(text[1..]);
      var rest := Split(text[1..]);
      forall l | l in Split(text)
        ensures Dotless(l)
      {
        if l !in rest && text[0] != DOT {
          assert l == [text[0]] + rest[0] && rest[0] in rest;
        }
      }
    }
  }

  lemma {:induction false} SplitLabel(l: Label)
    requires Dotless(l)
    ensures Split(l) == [l]
  {
    if l != [] {
      SplitLabel(l[1..]);
      assert [l[0]] + l[1..] == l;
    }
  }

  /** Splitting at a dot. */
  lemma {:induction false} SplitAtDot(a: seq<Byte>, b: seq<Byte>)
    ensures Split(a + [DOT] + b) == Split(a) + Split(b)
  {
    var text := a + [DOT] + b;
    if a == [] {
      assert text[0] == DOT && text[1..] == b;
    } else {
      SplitAtDot(a[1..], b);
      assert text[1..] == a[1..] + [DOT] + b && text[0] == a[0];
      var first, second := Split(a[1..]), Split(b);
      if a[0] == DOT {
        assert [[]] + (first + second) == [[]] + first + second;
      } else {
        PrefixedAppend(a[0], first, second);
      }
    }
  }

  lemma {:induction false} SplitJoin(labels: seq<Label>)
    requires labels != [] && forall l :: l in labels ==> Dotless(l)
    ensures Split(Join(labels)) == labels
  {
    SplitLabel(labels[0]);
    if |labels| > 1 {
      SplitJoin(labels[1..]);
      SplitAtDot(labels[0], Join(labels[1..]));
      assert [labels[0]] + labels[1..] == labels;
    } else {
      assert labels == [labels[0]];
    }
  }

  lemma {:induction false} JoinSplit(text: seq<Byte>)
    ensures Join(Split(text)) == text
  {
    if text != [] {
      var rest := Split(text[1..]);
      JoinSplit(text[1..]);
      var labels := Split(text);
      if text[0] == DOT {
        assert labels[1..] == rest;
      } else {
        assert labels[1..] == rest[1..];
        assert |rest| > 1 ==> Join(rest) == rest[0] + [DOT] + Join(rest[1..]);
      }
    }
  }

  lemma {:induction false} JoinAppend(a: seq<Label>, b: seq<Label>)
    requires a != [] && b != []
    ensures Join(a + b) == Join(a) + [DOT] + Join(b)
  {
    if |a| == 1 {
      assert (a + b)[1..] == b;
    } else {
      assert (a + b)[1..] == a[1..] + b;
      JoinAppend(a[1..], b);
    }
  }

  /** One list of labels is a tail of another: the name lies under it. */
  ghost predicate Under(child: seq<Label>, parent: seq<Label>) {
    |parent| <= |child| && child[|child| - |parent|..] == parent
  }

  lemma UnderTransitive(a: seq<Label>, b: seq<Label>, c: seq<Label>)
    requires Under(a, b) && Under(b, c)
    ensures Under(a, c)
  {}

  /** `parent` is the end of `child`, and what comes before it, if anything, ends a label. */
  ghost predicate EndsWith(child: seq<Byte>, parent: seq<Byte>) {
    && |parent| <= |child| && child[|child| - |parent|..] == parent
    && (|parent| < |child| ==> child[|child| - |parent| - 1] == DOT)
  }

  /** Comparing text from the end, up to a dot, compares lists of labels. */
  lemma EndsWithIffUnder(child: seq<Byte>, parent: seq<Byte>)
    ensures EndsWith(child, parent) <==> Under(Split(child), Split(parent))
  {
    if EndsWith(child, parent) {
      if |parent| < |child| {
        var front := child[..|child| - |parent| - 1];
        assert child == front + [DOT] + parent;
        SplitAtDot(front, parent);
      }
    }
    if Under(Split(child), Split(parent)) {
      UnderEndsWith(child, parent);
    }
  }

  lemma UnderEndsWith(child: seq<Byte>, parent: seq<Byte>)
    requires Under(Split(child), Split(parent))
    ensures EndsWith(child, parent)
  {
    JoinSplit(child);
    JoinSplit(parent);
    var k := |Split(child)| - |Split(parent)|;
    if k == 0 {
      assert Split(child)[0..] == Split(child);
    } else {
      var front := Split(child)[..k];
      assert Split(child) == front + Split(parent);
      JoinAppend(front, Split(parent));
      assert child == Join(front) + [DOT] + parent;
    }
  }

  // ---------------------------------------------------------------- C strings

  ghost predicate NullFree(text: seq<Byte>) {
    0 !in text
  }

  /** `lite_strlen`: how much of the bytes there is before the first null. */
  function TextLength(bytes: seq<Byte>): (n: nat)
    ensures n <= |bytes| && NullFree(bytes[..n]) && (n < |bytes| ==> bytes[n] == 0)
  {
    if bytes == [] || bytes[0] == 0 then 0
    else
      var n := TextLength(bytes[1..]);
      assert bytes[..n + 1] == [bytes[0]] + bytes[1..][..n];
      n + 1
  }

  /** The bytes as a C string. */
  function Text(bytes: seq<Byte>): seq<Byte> {
    bytes[..TextLength(bytes)]
  }

  lemma TextLengthIs(bytes: seq<Byte>, n: nat)
    requires n <= |bytes| && NullFree(bytes[..n]) && (n < |bytes| ==> bytes[n] == 0)
    ensures TextLength(bytes) == n
  {
    var m := TextLength(bytes);
    assert forall i :: 0 <= i < n ==> bytes[..n][i] == bytes[i] && bytes[i] != 0;
    assert forall i :: 0 <= i < m ==> bytes[..m][i] == bytes[i] && bytes[i] != 0;
  }

  lemma NullFreeText(bytes: seq<Byte>)
    ensures Text(bytes) == bytes <==> NullFree(bytes)
  {
    if NullFree(bytes) {
      TextLengthIs(bytes, |bytes|);
    }
  }

  // ---------------------------------------------------------------- grammar

  predicate IsLetter(c: Byte) {
    97 <= c <= 122 || 65 <= c <= 90
  }

  predicate IsLetterDigit(c: Byte) {
    IsLetter(c) || 48 <= c <= 57
  }

  predicate IsLetterDigitHyphen(c: Byte) {
    IsLetterDigit(c) || c == HYPHEN
  }

  function ToLower(c: Byte): Byte {
    if 65 <= c <= 90 then c + 32 else c
  }

  /** The bytes meant are those of the characters, in ASCII. */
  lemma Characters(c: Byte)
    ensures IsLetter(c) <==> 'a' <= c as int as char <= 'z' || 'A' <= c as int as char <= 'Z'
    ensures IsLetterDigit(c) <==> IsLetter(c) || '0' <= c as int as char <= '9'
    ensures IsLetterDigitHyphen(c) <==> IsLetterDigit(c) || c as int as char == '-'
    ensures (c == DOT <==> c as int as char == '.') && (c == SPACE <==> c as int as char == ' ')
    ensures c == STAR <==> c as int as char == '*'
    ensures 'A' <= c as int as char <= 'Z' ==> ToLower(c) as int - c as int == 'a' as int - 'A' as int
  {}

  /** The label of section 2.3.1 of RFC 1035. */
  ghost predicate IsLabel(l: Label) {
    && l != [] && IsLetter(l[0]) && IsLetterDigit(l[|l| - 1])
    && forall c :: c in l ==> IsLetterDigitHyphen(c)
  }

  ghost predicate IsSubdomain(text: seq<Byte>) {
    forall l :: l in Split(text) ==> IsLabel(l)
  }

  ghost predicate IsDomain(text: seq<Byte>) {
    text == [SPACE] || IsSubdomain(text)
  }

  // ---------------------------------------------------------------- wire form

  /** Labels with their lengths in front, and the root label at the end: section 3.1 of RFC 1035. */
  function Wire(labels: seq<Label>): seq<Byte>
    requires forall l :: l in labels ==> |l| < 256
  {
    if labels == [] then [0] else [|labels[0]| as Byte] + labels[0] + Wire(labels[1..])
  }

  /** Reading labels off a buffer of which `limit` bytes may be used. */
  function Decode(buffer: seq<Byte>, limit: nat): Option<seq<Label>>
    decreases |buffer|
  {
    if limit == 0 || buffer == [] then None
    else
      var n := buffer[0] as nat;
      if n + 1 > limit || n + 1 > |buffer| then None
      else if n == 0 then Some([])
      else
        match Decode(buffer[n + 1..], limit - n - 1)
        case None => None
        case Some(rest) => Some([buffer[1..n + 1]] + rest)
  }

  ghost predicate Sendable(labels: seq<Label>) {
    forall l :: l in labels ==> 0 < |l| < 256
  }

  lemma WireCons(l: Label, rest: seq<Label>)
    requires |l| < 256 && forall k :: k in rest ==> |k| < 256
    ensures Wire([l] + rest) == [|l| as Byte] + l + Wire(rest)
  {}

  lemma DecodeCons(buffer: seq<Byte>, limit: nat, l: Label, rest: seq<Byte>)
    requires 0 < |l| < 256 && buffer == [|l| as Byte] + l + rest
    ensures Decode(buffer, limit) ==
            if |l| + 1 > limit then None
            else
              match Decode(rest, limit - |l| - 1)
              case None => None
              case Some(labels) => Some([l] + labels)
  {
    assert buffer[|l| + 1..] == rest && buffer[1..|l| + 1] == l;
  }

  /** What is decoded is what is in the buffer. */
  lemma {:induction false} DecodeSound(buffer: seq<Byte>, limit: nat)
    requires Decode(buffer, limit).Some?
    ensures var labels := Decode(buffer, limit).value;
      Sendable(labels) && Wire(labels) <= buffer && |Wire(labels)| <= limit
    decreases |buffer|
  {
    var n := buffer[0] as nat;
    if n > 0 {
      var l, rest := buffer[1..n + 1], buffer[n + 1..];
      assert buffer == [|l| as Byte] + l + rest;
      DecodeCons(buffer, limit, l, rest);
      DecodeSound(rest, limit - n - 1);
      var labels := Decode(rest, limit - n - 1).value;
      WireCons(l, labels);
      PrefixBehind([|l| as Byte] + l, Wire(labels), rest);
    }
  }

  lemma PrefixBehind(head: seq<Byte>, a: seq<Byte>, b: seq<Byte>)
    requires a <= b
    ensures head + a <= head + b
  {
    assert b == a + b[|a|..];
    assert head + b == head + a + b[|a|..];
  }

  /** The wire form is decoded exactly when it fits the limit. */
  lemma {:induction false} DecodeWire(labels: seq<Label>, more: seq<Byte>, limit: nat)
    requires Sendable(labels)
    ensures Decode(Wire(labels) + more, limit) == if |Wire(labels)| <= limit then Some(labels) else None
    decreases |labels|
  {
    if labels != [] {
      var l, rest := labels[0], labels[1..];
      assert [l] + rest == labels;
      WireCons(l, rest);
      assert Wire(labels) + more == [|l| as Byte] + l + (Wire(rest) + more);
      DecodeCons(Wire(labels) + more, limit, l, Wire(rest) + more);
      if |l| + 1 <= limit {
        DecodeWire(rest, more, limit - |l| - 1);
      }
    }
  }

  /** The wire form is two bytes longer than the text. */
  lemma {:induction false} WireLength(labels: seq<Label>)
    requires labels != [] && forall l :: l in labels ==> |l| < 256
    ensures |Wire(labels)| == |Join(labels)| + 2
  {
    if |labels| > 1 {
      WireLength(labels[1..]);
    } else {
      assert Wire(labels[1..]) == [0];
    }
  }

  /** The wire form short of the root label. */
  function Front(labels: seq<Label>): seq<Byte>
    requires forall l :: l in labels ==> |l| < 256
  {
    if labels == [] then []
    else Front(labels[..|labels| - 1]) + [|labels[|labels| - 1]| as Byte] + labels[|labels| - 1]
  }

  lemma FrontSnoc(labels: seq<Label>, l: Label)
    requires |l| < 256 && forall k :: k in labels ==> |k| < 256
    ensures Front(labels + [l]) == Front(labels) + [|l| as Byte] + l
  {}

  lemma {:induction false} FrontCons(l: Label, labels: seq<Label>)
    requires |l| < 256 && forall k :: k in labels ==> |k| < 256
    ensures Front([l] + labels) == [|l| as Byte] + l + Front(labels)
  {
    if labels == [] {
      FrontSnoc([], l);
      assert [l] + labels == [] + [l];
    } else {
      var init, last := labels[..|labels| - 1], labels[|labels| - 1];
      assert labels == init + [last];
      FrontCons(l, init);
      FrontSnoc([l] + init, last);
      FrontSnoc(init, last);
      assert [l] + labels == [l] + init + [last];
    }
  }

  lemma {:induction false} WireIsFront(labels: seq<Label>)
    requires forall l :: l in labels ==> |l| < 256
    ensures Wire(labels) == Front(labels) + [0]
  {
    if labels != [] {
      WireIsFront(labels[1..]);
      FrontCons(labels[0], labels[1..]);
      assert [labels[0]] + labels[1..] == labels;
    }
  }

  // ---------------------------------------------------------------- reading text from the left

  lemma SplitMore(text: seq<Byte>, c: Byte)
    ensures var labels := Split(text);
      var init, last := labels[..|labels| - 1], labels[|labels| - 1];
      Split(text + [c]) == if c == DOT then labels + [[]] else init + [last + [c]]
  {
    if c == DOT {
      SplitAtDot(text, []);
      assert text + [c] == text + [DOT] + [];
    } else {
      SplitMoreChar(text, c);
    }
  }

  lemma {:induction false} SplitMoreChar(text: seq<Byte>, c: Byte)
    requires c != DOT
    ensures var labels := Split(text);
      Split(text + [c]) == labels[..|labels| - 1] + [labels[|labels| - 1] + [c]]
  {
    var labels := Split(text);
    if text == [] {
      SplitLabel([c]);
      assert text + [c] == [c];
    } else {
      SplitMoreChar(text[1..], c);
      assert (text + [c])[1..] == text[1..] + [c] && (text + [c])[0] == text[0];
      var rest := Split(text[1..]);
      if text[0] != DOT {
        PrefixedSnoc(text[0], rest, c);
      }
    }
  }

  lemma PrefixedSnoc(b: Byte, rest: seq<Label>, c: Byte)
    requires rest != []
    ensures Prefixed(b, rest[..|rest| - 1] + [rest[|rest| - 1] + [c]])
            == Prefixed(b, rest)[..|rest| - 1] + [Prefixed(b, rest)[|rest| - 1] + [c]]
  {
    if |rest| == 1 {
      assert [b] + (rest[0] + [c]) == [b] + rest[0] + [c];
    } else {
      var l := rest[..|rest| - 1] + [rest[|rest| - 1] + [c]];
      assert l[0] == rest[0] && l[1..] == rest[1..|rest| - 1] + [rest[|rest| - 1] + [c]];
    }
  }

  /** The first label runs up to the first dot or to the end. */
  lemma {:induction false} SplitFirst(text: seq<Byte>)
    ensures var first := Split(text)[0];
      && first <= text && Dotless(first)
      && (if |first| == |text| then Split(text) == [text]
          else text[|first|] == DOT && Split(text) == [first] + Split(text[|first| + 1..]))
  {
    SplitDotless(text);
    var first := Split(text)[0];
    if text != [] && text[0] != DOT {
      SplitFirst(text[1..]);
      var f := Split(text[1..])[0];
      if |f| == |text[1..]| {
        assert [text[0]] + text[1..] == text;
      } else {
        var rest := Split(text[1..][|f| + 1..]);
        assert ([f] + rest)[1..] == rest;
        assert text[|first| + 1..] == text[1..][|f| + 1..];
      }
    }
  }

  function Lower(text: seq<Byte>): (r: seq<Byte>)
    ensures |r| == |text|
  {
    seq(|text|, i requires 0 <= i < |text| => ToLower(text[i]))
  }

  /** Two bytes that are equal, or the upper-case and the lower-case form of a letter. */
  predicate SameButCase(a: Byte, b: Byte) {
    a == b || (65 <= a <= 90 && b == a + 32) || (65 <= b <= 90 && a == b + 32)
  }

  /** Lower-case text says what its text says but for case, and has no upper-case letter. */
  lemma LowerIs(text: seq<Byte>, i: nat)
    requires i < |text|
    ensures !(65 <= Lower(text)[i] <= 90) && SameButCase(Lower(text)[i], text[i])
    ensures Lower(text)[i] == if 65 <= text[i] <= 90 then text[i] + 32 else text[i]
  {}

  /** Texts have one lower-case form exactly if they differ in the case of letters only. */
  lemma LowerSame(a: seq<Byte>, b: seq<Byte>)
    ensures Lower(a) == Lower(b) <==> |a| == |b| && forall i :: 0 <= i < |a| ==> SameButCase(a[i], b[i])
  {
    if Lower(a) == Lower(b) {
      forall i | 0 <= i < |a|
        ensures SameButCase(a[i], b[i])
      {
        assert Lower(a)[i] == Lower(b)[i];
        LowerIs(a, i);
        LowerIs(b, i);
      }
    }
  }

  function LowerAll(labels: seq<Label>): (r: seq<Label>)
    ensures |r| == |labels|
  {
    seq(|labels|, i requires 0 <= i < |labels| => Lower(labels[i]))
  }

  lemma {:induction false} SplitLower(text: seq<Byte>)
    ensures Split(Lower(text)) == LowerAll(Split(text))
  {
    if text != [] {
      var rest := text[1..];
      SplitLower(rest);
      assert Lower(text)[1..] == Lower(rest) && Lower(text)[0] == ToLower(text[0]);
      if text[0] == DOT {
        LowerBehind(Split(rest));
      } else {
        LowerPrefixed(text[0], Split(rest));
      }
    }
  }

  lemma LowerBehind(labels: seq<Label>)
    ensures LowerAll([[]] + labels) == [[]] + LowerAll(labels)
  {}

  lemma LowerPrefixed(c: Byte, labels: seq<Label>)
    requires labels != []
    ensures LowerAll(Prefixed(c, labels)) == Prefixed(ToLower(c), LowerAll(labels))
  {
    assert Lower([c] + labels[0]) == [ToLower(c)] + Lower(labels[0]);
  }

  lemma LowerSubdomain(text: seq<Byte>)
    requires IsSubdomain(text)
    ensures IsSubdomain(Lower(text))
  {
    SplitLower(text);
    forall l | l in Split(Lower(text))
      ensures IsLabel(l)
    {
      var i :| 0 <= i < |Split(text)| && Split(Lower(text))[i] == l;
      assert Split(text)[i] in Split(text);
      LowerLabel(Split(text)[i]);
    }
  }

  lemma LowerLabel(l: Label)
    requires IsLabel(l)
    ensures IsLabel(Lower(l))
  {
    forall i | 0 <= i < |l|
      ensures IsLetterDigitHyphen(Lower(l)[i])
    {
      assert l[i] in l;
    }
  }
}
