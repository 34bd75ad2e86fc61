/** Domain names: parsing text, reading and writing the wire form, and comparing names. */
module DomainNames {

  import opened Words
  import opened Folding
  import opened DomainSpec
  import opened Options

  /** The dotted text, the size in wire form, and the number of labels short of wildcards. */
  datatype DomainName = DomainName(name: seq<Byte>, len: nat, numLabels: nat)

  const ROOT: DomainName := DomainName([SPACE], 1, 0)

  /** Sizes fit together: the root takes one byte, other names two more than their text. */
  predicate Measured(d: DomainName) {
    d == ROOT || (d.name != [] && d.len == |d.name| + 2)
  }

  /** The labels of a name, as far as its text goes: a name from a buffer may hold a null. */
  function LabelsOf(d: DomainName): seq<Label> {
    if d == ROOT then [] else Split(Text(d.name))
  }

  /** A name as `parse` makes it: lower case, by the grammar, and measured and counted right. */
  ghost predicate WellFormed(d: DomainName) {
    var ok :=
      || d == ROOT
      || (&& IsSubdomain(d.name) && Lower(d.name) == d.name && 0 < |d.name| <= 254
          && d.len == |d.name| + 2 && d.numLabels == |Split(d.name)|);
    ok
  }

  // ---------------------------------------------------------------- checking text

  datatype Verdict = Accept | Reject | OutOfBounds

  /** No label at the front of the text stops where label characters do. */
  ghost predicate NoLabelRun(text: seq<Byte>) {
    forall k :: 0 <= k <= |text| && (k < |text| ==> !IsLetterDigitHyphen(text[k])) ==> !IsLabel(text[..k])
  }

  /** `checkLabel`: the longest run of label characters, or -1 if that is no label. */
  method CheckLabel(text: seq<Byte>) returns (r: int)
    ensures r == -1 || 1 <= r <= |text|
    ensures r != -1 ==> IsLabel(text[..r]) && (r < |text| ==> !IsLetterDigitHyphen(text[r]))
    ensures r == -1 ==> NoLabelRun(text)
  {
    if |text| == 0 {
      return -1;
    }
    if !IsLetter(text[0]) {
      return -1;
    }
    var n := 1;
    while n < |text|
      invariant 1 <= n <= |text|
      invariant forall i :: 0 <= i < n ==> IsLetterDigitHyphen(text[i])
    {
      if !IsLetterDigitHyphen(text[n]) {
        break;
      }
      n := n + 1;
    }
    if IsLetterDigit(text[n - 1]) {
      return n;
    } else {
      RunNoLabel(text, n);
      return -1;
    }
  }

  /** A run that ends in a hyphen leaves no label that stops where label characters do. */
  lemma RunNoLabel(text: seq<Byte>, n: nat)
    requires 1 <= n <= |text| && (forall i :: 0 <= i < n ==> IsLetterDigitHyphen(text[i]))
    requires (n < |text| ==> !IsLetterDigitHyphen(text[n])) && !IsLetterDigit(text[n - 1])
    ensures NoLabelRun(text)
  {}

  /** Text of the grammar up to a last character of its own that is no letter. */
  ghost predicate ReadsPast(text: seq<Byte>) {
    && text != [] && !IsLetter(text[|text| - 1])
    && (|text| == 1 || (text[|text| - 2] == DOT && IsSubdomain(text[..|text| - 2])))
  }

  /** For one, `a.1`. */
  lemma ReadsPastOnce()
    ensures ReadsPast([97, DOT, 49])
  {
    SplitLabel([97]);
    assert [97, DOT, 49][..1] == [97];
  }

  /**
    `checkSubdomain`, with its 8-bit label length. Up to 254 characters it accepts exactly the grammar, and
    reads past the text exactly where a last label of one character is no letter.
   */
  method CheckSubdomain(text: seq<Byte>) returns (v: Verdict)
    requires |text| < WORD
    ensures |text| <= 254 ==> (v == Accept <==> IsSubdomain(text))
    ensures |text| <= 254 ==> (v == OutOfBounds <==> ReadsPast(text))
    decreases |text|
  {
    if |text| == 0 {
      NothingIsNoSubdomain();
      return Reject;
    }
    var checked := CheckFirst(text);
    var labelLen := checked % 256;
    if labelLen == |text| {
      return Accept;
    } else if labelLen > (|text| - 2) % WORD {
      return Reject;
    }
    if labelLen >= |text| {
      return OutOfBounds;
    }
    if text[labelLen] != DOT {
      return Reject;
    }
    v := CheckSubdomain(text[labelLen + 1..]);
  }

  /** `checkLabel` at the front, and what it says about the whole. */
  method CheckFirst(text: seq<Byte>) returns (r: int)
    requires 0 < |text|
    ensures r == -1 || 1 <= r <= |text|
    ensures r == -1 ==> !IsSubdomain(text) && (ReadsPast(text) <==> |text| == 1)
    ensures r == |text| ==> IsSubdomain(text) && !ReadsPast(text)
    ensures r == |text| - 1 || (0 < r < |text| && text[r] != DOT) ==> !IsSubdomain(text)
    ensures (r > 0 && r == |text| - 1) || (0 < r < |text| && text[r] != DOT) ==> !ReadsPast(text)
    ensures 0 < r < |text| - 1 && text[r] == DOT ==>
              && (IsSubdomain(text) <==> IsSubdomain(text[r + 1..]))
              && (ReadsPast(text) <==> ReadsPast(text[r + 1..]))
  {
    r := CheckLabel(text);
    SubdomainStep(text, r);
    PastStep(text, r);
  }

  /** What the run of label characters at the front says about the whole. */
  lemma SubdomainStep(text: seq<Byte>, r: int)
    requires 0 < |text|
    requires r == -1 || 1 <= r <= |text|
    requires r != -1 ==> IsLabel(text[..r]) && (r < |text| ==> !IsLetterDigitHyphen(text[r]))
    requires r == -1 ==> NoLabelRun(text)
    ensures r == -1 ==> !IsSubdomain(text)
    ensures r == |text| ==> IsSubdomain(text)
    ensures 0 < r < |text| && text[r] != DOT ==> !IsSubdomain(text)
    ensures 0 < r < |text| && text[r] == DOT ==> (IsSubdomain(text) <==> IsSubdomain(text[r + 1..]))
    ensures r == |text| - 1 ==> !IsSubdomain(text)
    ensures r == -1 && |text| == 1 ==> !IsLetter(text[0])
  {
    if r == -1 {
      NoRun(text);
    } else {
      LabelDotless(text[..r]);
      if r == |text| {
        assert text[..r] == text;
        SplitLabel(text);
      } else if text[r] == DOT {
        RunToDot(text, r);
      } else {
        RunStops(text, r);
      }
    }
  }

  /** The same for reading past the text. */
  lemma PastStep(text: seq<Byte>, r: int)
    requires 0 < |text|
    requires r == -1 || 1 <= r <= |text|
    requires r != -1 ==> IsLabel(text[..r]) && (r < |text| ==> !IsLetterDigitHyphen(text[r]))
    requires r == -1 ==> NoLabelRun(text)
    ensures r == -1 ==> (ReadsPast(text) <==> |text| == 1)
    ensures r >= |text| - 1 && r > 0 ==> !ReadsPast(text)
    ensures 0 < r < |text| && text[r] != DOT ==> !ReadsPast(text)
    ensures 0 < r < |text| - 1 && text[r] == DOT ==> (ReadsPast(text) <==> ReadsPast(text[r + 1..]))
  {
    if r == -1 {
      PastNoRun(text);
    } else {
      LabelDotless(text[..r]);
      assert forall i :: 0 <= i < r ==> text[..r][i] in text[..r] && text[i] == text[..r][i];
      if r < |text| - 1 && text[r] == DOT {
        PastDot(text, r);
      } else if r < |text| - 2 {
        assert text[..|text| - 2][..r] == text[..r];
        RunStops(text[..|text| - 2], r);
      }
    }
  }

  lemma PastNoRun(text: seq<Byte>)
    requires 0 < |text| && NoLabelRun(text)
    ensures ReadsPast(text) <==> |text| == 1
  {
    NoRun(text);
    if |text| > 1 && text[|text| - 2] == DOT {
      var front := text[..|text| - 2];
      SplitFirst(front);
      var first := Split(front)[0];
      assert text[..|first|] == first && text[|first|] == DOT && first in Split(front);
      assert !IsLabel(text[..|first|]);
    }
  }

  lemma PastDot(text: seq<Byte>, r: nat)
    requires 0 < r < |text| - 1 && text[r] == DOT && IsLabel(text[..r]) && Dotless(text[..r])
    ensures ReadsPast(text) <==> ReadsPast(text[r + 1..])
  {
    var front, rest := text[..|text| - 2], text[r + 1..];
    if |rest| == 1 {
      assert front == text[..r];
      SplitLabel(front);
    } else {
      assert front[..r] == text[..r] && front[r + 1..] == rest[..|rest| - 2];
      RunToDot(front, r);
    }
  }

  lemma LabelDotless(l: Label)
    requires IsLabel(l)
    ensures Dotless(l)
  {}

  lemma NoRun(text: seq<Byte>)
    requires 0 < |text|
    requires NoLabelRun(text)
    ensures !IsSubdomain(text)
    ensures |text| == 1 ==> !IsLetter(text[0])
  {
    SplitFirst(text);
    var first := Split(text)[0];
    assert first == text[..|first|] && first in Split(text);
    assert !IsLabel(text[..|first|]);
    if |text| == 1 {
      assert text[..1] == text && !IsLabel(text);
    }
  }

  lemma RunToDot(text: seq<Byte>, r: nat)
    requires r < |text| && text[r] == DOT && IsLabel(text[..r]) && Dotless(text[..r])
    ensures IsSubdomain(text) <==> IsSubdomain(text[r + 1..])
    ensures r == |text| - 1 ==> !IsSubdomain(text)
  {
    var l, rest := text[..r], text[r + 1..];
    assert text == l + [DOT] + rest;
    SplitAtDot(l, rest);
    SplitLabel(l);
    NothingIsNoSubdomain();
  }

  lemma NothingIsNoSubdomain()
    ensures !IsSubdomain([])
  {
    assert [] in Split([]);
  }

  lemma RunStops(text: seq<Byte>, r: nat)
    requires r < |text| && text[r] != DOT && !IsLetterDigitHyphen(text[r]) && Dotless(text[..r])
    ensures !IsSubdomain(text)
  {
    SplitFirst(text);
    var first := Split(text)[0];
    assert forall i :: 0 <= i < r ==> text[..r][i] == text[i] && text[i] != DOT;
    assert |first| > r;
    assert first[r] in first && first in Split(text);
  }

  method CheckDomainName(text: seq<Byte>) returns (v: Verdict)
    requires |text| <= 254
    ensures v == Accept <==> IsDomain(text)
    ensures v == OutOfBounds <==> text != [SPACE] && ReadsPast(text)
  {
    if |text| == 0 {
      NothingIsNoSubdomain();
      return Reject;
    }
    if |text| == 1 && text[0] == SPACE {
      return Accept;
    }
    v := CheckSubdomain(text);
  }

  // ---------------------------------------------------------------- parsing text

  datatype Parsed = Ok(d: DomainName) | BadInput | Undefined

  lemma {:induction false} DomainNullFree(text: seq<Byte>)
    requires IsDomain(text)
    ensures NullFree(text)
  {
    if text != [SPACE] {
      SplitFirst(text);
      var first := Split(text)[0];
      assert first in Split(text) && !IsLetterDigitHyphen(0);
      if |first| < |text| {
        var rest := text[|first| + 1..];
        DomainNullFree(rest);
        assert text == first + [DOT] + rest;
      }
    }
  }

  method StrLen(bytes: seq<Byte>) returns (n: nat)
    ensures n == TextLength(bytes)
  {
    n := 0;
    while n < |bytes| && bytes[n] != 0
      invariant n <= |bytes| && NullFree(bytes[..n])
    {
      n := n + 1;
    }
    TextLengthIs(bytes, n);
  }

  function DotsIn(text: seq<Byte>): nat {
    if text == [] then 0 else DotsIn(text[..|text| - 1]) + if text[|text| - 1] == DOT then 1 else 0
  }

  lemma {:induction false} DotsSplit(text: seq<Byte>)
    ensures |Split(text)| == DotsIn(text) + 1
  {
    if text != [] {
      var init := text[..|text| - 1];
      DotsSplit(init);
      SplitMore(init, text[|text| - 1]);
      assert text == init + [text[|text| - 1]];
    }
  }

  /** `parse`, on the characters and what should be their terminator. Accepted is exactly the grammar. */
  method Parse(buffer: seq<Byte>) returns (r: Parsed)
    requires 0 < |buffer| <= 255
    ensures var text := buffer[..|buffer| - 1];
      && (r.Ok? <==> IsDomain(text) && buffer[|text|] == 0)
      && (r.Ok? ==> WellFormed(r.d) && r.d.name == Lower(text) && (r.d == ROOT <==> text == [SPACE]))
      && (r.Ok? ==> |r.d.name| == |text| && forall i :: 0 <= i < |text| ==>
            && r.d.name[i] == (if 65 <= text[i] <= 90 then text[i] + 32 else text[i])
            && !(65 <= r.d.name[i] <= 90))
      && (r == Undefined <==> text != [SPACE] && ReadsPast(text))
  {
    var text := buffer[..|buffer| - 1];
    var v := CheckDomainName(text);
    if v == OutOfBounds {
      return Undefined;
    }
    if v == Reject {
      return BadInput;
    }
    DomainNullFree(text);
    var nameLength := StrLen(buffer);
    assert buffer[..nameLength] == Text(buffer);
    assert forall i :: 0 <= i < |text| ==> buffer[i] == text[i] && text[i] in text;
    if nameLength == |buffer| && buffer[nameLength - 1] != 0 {
      return BadInput;
    }
    assert nameLength == |text|;
    var d := Fill(text);
    r := Ok(d);
  }

  /** Two texts that are accepted make equal names exactly if they differ in the case of letters only. */
  method ParseBoth(a: seq<Byte>, b: seq<Byte>) returns (d: Parsed, e: Parsed, same: bool)
    requires 0 < |a| <= 255 && 0 < |b| <= 255
    ensures d.Ok? && e.Ok? ==>
      (same <==> |a| == |b| && forall i :: 0 <= i < |a| - 1 ==> SameButCase(a[i], b[i]))
  {
    d := Parse(a);
    e := Parse(b);
    same := false;
    if d.Ok? && e.Ok? {
      WellFormedText(d.d);
      same := Equal(d.d, e.d);
      LowerSame(a[..|a| - 1], b[..|b| - 1]);
    }
  }

  /** The fields of a name whose text has been checked. */
  method Fill(text: seq<Byte>) returns (d: DomainName)
    requires IsDomain(text) && |text| <= 254
    ensures WellFormed(d) && d.name == Lower(text) && (d == ROOT <==> text == [SPACE])
  {
    var name := LowerAll(text);
    if |text| == 1 && text[0] == SPACE {
      assert text == [SPACE] && name == [SPACE];
      return DomainName(name, 1, 0);
    }
    var dots := CountDots(text);
    var numLabels := dots + 1;
    var len: int := (|text| - (numLabels - 1)) + numLabels + 1;
    LowerSubdomain(text);
    SplitLower(text);
    DotsSplit(text);
    NothingIsNoSubdomain();
    d := DomainName(name, len, numLabels);
  }

  method LowerAll(text: seq<Byte>) returns (name: seq<Byte>)
    ensures name == Lower(text) && Lower(name) == name
  {
    name := [];
    var i := 0;
    while i < |text|
      invariant 0 <= i <= |text| && name == Lower(text)[..i]
    {
      name := name + [ToLower(text[i])];
      i := i + 1;
    }
  }

  method CountDots(text: seq<Byte>) returns (n: nat)
    ensures n == DotsIn(text)
  {
    n := 0;
    var i := 0;
    while i < |text|
      invariant 0 <= i <= |text| && n == DotsIn(text[..i])
    {
      assert text[..i + 1][..i] == text[..i];
      if text[i] == DOT {
        n := n + 1;
      }
      i := i + 1;
    }
    assert text[..i] == text;
  }

  // ---------------------------------------------------------------- comparing names

  /** What `suffix` finds: the parent is no longer, and its labels are a tail of the child's. */
  ghost predicate SuffixOf(d: DomainName, parent: DomainName) {
    parent.len <= d.len && Under(LabelsOf(d), LabelsOf(parent))
  }

  /** The parent's text is longer than the child's and ends in it, as a null in the child's bytes allows. */
  ghost predicate Outruns(d: DomainName, parent: DomainName) {
    var child, text := Text(d.name), Text(parent.name);
    1 < parent.len <= d.len && |child| < |text| && text[|text| - |child|..] == child
  }

  /** Without a null in the child nothing is outrun; without one in either the labels alone decide. */
  lemma SuffixNullFree(d: DomainName, parent: DomainName)
    requires Measured(d) && Measured(parent) && NullFree(d.name)
    ensures !Outruns(d, parent)
    ensures NullFree(parent.name) ==> (SuffixOf(d, parent) <==> Under(LabelsOf(d), LabelsOf(parent)))
  {
    NullFreeText(d.name);
    NullFreeText(parent.name);
    EndsWithIffUnder(Text(d.name), Text(parent.name));
  }

  /** `suffix`: comparing characters from the end finds the names under the parent. */
  method Suffix(d: DomainName, parent: DomainName) returns (v: Verdict)
    requires Measured(d) && Measured(parent)
    ensures v == Accept <==> SuffixOf(d, parent)
    ensures v == OutOfBounds <==> Outruns(d, parent)
    ensures NullFree(d.name) && NullFree(parent.name) ==> (v == Accept <==> Under(LabelsOf(d), LabelsOf(parent)))
  {
    if NullFree(d.name) {
      SuffixNullFree(d, parent);
    }
    if parent.len > d.len {
      return Reject;
    }
    if parent.len == 1 {
      assert LabelsOf(parent) == [];
      return Accept;
    }
    EndsWithIffUnder(Text(d.name), Text(parent.name));
    var parentLength := StrLen(parent.name);
    var length := StrLen(d.name);
    v := CompareFromEnd(d.name[..length], parent.name[..parentLength]);
  }

  /** The loop of `suffix`; it leaves the child's text where the parent's goes on before it. */
  method CompareFromEnd(child: seq<Byte>, parent: seq<Byte>) returns (v: Verdict)
    ensures v == Accept <==> EndsWith(child, parent)
    ensures v == OutOfBounds <==> |child| < |parent| && parent[|parent| - |child|..] == child
  {
    var parentPos, pos := |parent| - 1, |child| - 1;
    ghost var offset := |child| - |parent|;
    while parentPos >= 0
      invariant -1 <= parentPos < |parent| && -1 <= pos == parentPos + offset
      invariant forall k :: parentPos < k < |parent| ==> child[offset + k] == parent[k]
      decreases parentPos
    {
      if pos < 0 {
        assert parent[|parent| - |child|..] == child;
        return OutOfBounds;
      }
      if child[pos] != parent[parentPos] {
        if offset >= 0 {
          assert child[offset..][parentPos] != parent[parentPos];
        } else {
          assert parent[-offset..][pos] != child[pos];
        }
        return Reject;
      }
      parentPos := parentPos - 1;
      pos := pos - 1;
    }
    assert child[offset..] == parent;
    if !(pos < 0 || child[pos] == DOT) {
      return Reject;
    }
    v := Accept;
  }

  /** What `operator==` compares: sizes, counts, and bytes as far as the left text goes. */
  ghost predicate SameAs(d: DomainName, e: DomainName) {
    d.len == e.len && d.numLabels == e.numLabels && Text(d.name) <= e.name
  }

  /** That is equality, whatever the right side, exactly when the left name has no null. */
  lemma SameIffNullFree(d: DomainName)
    requires Measured(d)
    ensures NullFree(d.name) <==> forall e :: Measured(e) ==> (SameAs(d, e) <==> d == e)
  {
    NullFreeText(d.name);
    if !NullFree(d.name) {
      var n := TextLength(d.name);
      var e := d.(name := d.name[n := 1]);
      assert d.name[n] != e.name[n];
      assert Measured(e) && SameAs(d, e) && d != e;
    }
  }

  /** `operator==`. */
  method Equal(d: DomainName, e: DomainName) returns (r: bool)
    requires Measured(d) && Measured(e)
    ensures r <==> SameAs(d, e)
    ensures NullFree(d.name) ==> (r <==> d == e)
  {
    SameIffNullFree(d);
    if d.len != e.len || d.numLabels != e.numLabels {
      return false;
    }
    var n := StrLen(d.name);
    var i := 0;
    while i < n
      invariant 0 <= i <= n && d.name[..i] == e.name[..i]
    {
      if d.name[i] != e.name[i] {
        assert Text(d.name)[i] != e.name[i];
        return false;
      }
      i := i + 1;
    }
    r := true;
  }

  // ---------------------------------------------------------------- wire form

  lemma {:induction false} SplitShort(text: seq<Byte>)
    ensures forall l :: l in Split(text) ==> |l| <= |text|
  {
    SplitFirst(text);
    var first := Split(text)[0];
    if |first| < |text| {
      SplitShort(text[|first| + 1..]);
    }
  }

  /** While a name is written: the labels done are in place, and so is the last one but for its length. */
  ghost predicate Written(buffer: seq<Byte>, n: nat, labelPos: nat, done: seq<Label>, last: Label) {
    && labelPos + |last| == n <= 254 && n + 2 <= |buffer|
    && forall u {:trigger Seen(u)} :: Seen(u) ==>
         Encodable(done) && buffer[..labelPos] == Front(done) && buffer[labelPos + 1..n + 1] == last
  }

  lemma WrittenNothing(buffer: seq<Byte>)
    requires |buffer| >= 2
    ensures Written(buffer, 0, 0, [], [])
  {}

  lemma WrittenDot(buffer: seq<Byte>, n: nat, labelPos: nat, done: seq<Label>, last: Label)
    requires Written(buffer, n, labelPos, done, last) && n < 254 && n + 3 <= |buffer|
    ensures Written(buffer[labelPos := |last| as Byte], n + 1, n + 1, done + [last], [])
  {
    assert Seen(0);
    FrontSnoc(done, last);
    assert buffer[labelPos := |last| as Byte][..n + 1]
        == buffer[..labelPos] + [|last| as Byte] + buffer[labelPos + 1..n + 1];
  }

  lemma WrittenChar(buffer: seq<Byte>, n: nat, labelPos: nat, done: seq<Label>, last: Label, c: Byte)
    requires Written(buffer, n, labelPos, done, last) && n < 254 && n + 3 <= |buffer|
    ensures Written(buffer[n + 1 := c], n + 1, labelPos, done, last + [c])
  {
    assert Seen(0);
  }

  lemma WrittenAll(buffer: seq<Byte>, n: nat, labelPos: nat, done: seq<Label>, last: Label)
    requires Written(buffer, n, labelPos, done, last)
    ensures Encodable(done + [last])
    ensures buffer[labelPos := |last| as Byte][n + 1 := 0][..n + 2] == Wire(done + [last])
  {
    assert Seen(0);
    FrontSnoc(done, last);
    WireIsFront(done + [last]);
    WrittenPieces(buffer, n, labelPos, |last| as Byte);
  }

  lemma WrittenPieces(buffer: seq<Byte>, n: nat, labelPos: nat, k: Byte)
    requires labelPos <= n && n + 2 <= |buffer|
    ensures buffer[labelPos := k][n + 1 := 0][..n + 2] == buffer[..labelPos] + [k] + buffer[labelPos + 1..n + 1] + [0]
  {}

  /** `serialize`: the wire form of the name's labels, in exactly `len` bytes. */
  method Serialize(d: DomainName, buffer: array<Byte>) returns (n: nat)
    requires WellFormed(d) && d.len <= buffer.Length
    modifies buffer
    ensures n == d.len && Encodable(LabelsOf(d)) && buffer[..n] == Wire(LabelsOf(d))
    ensures forall i :: n <= i < buffer.Length ==> buffer[i] == old(buffer[i])
  {
    WellFormedText(d);
    SplitShort(d.name);
    if d == ROOT {
      // The one space writes the root label at 0; so do the last two assignments.
      buffer[0] := 0;
    } else {
      SerializeLabels(d.name, buffer);
    }
    n := d.len;
    assert d == ROOT ==> buffer[..n] == [0];
  }

  lemma WellFormedText(d: DomainName)
    requires WellFormed(d)
    ensures NullFree(d.name) && Text(d.name) == d.name
  {
    DomainNullFree(d.name);
    NullFreeText(d.name);
  }

  ghost predicate Encodable(labels: seq<Label>) {
    forall l :: l in labels ==> |l| < 256
  }

  lemma SplitNext(name: seq<Byte>, i: nat, done: seq<Label>, last: Label)
    requires i < |name| && Split(name[..i]) == done + [last]
    ensures Split(name[..i + 1]) ==
            if name[i] == DOT then done + [last] + [[]] else done + [last + [name[i]]]
  {
    assert name[..i + 1] == name[..i] + [name[i]];
    SplitMore(name[..i], name[i]);
    assert (done + [last])[..|done|] == done;
  }

  method SerializeLabels(name: seq<Byte>, buffer: array<Byte>)
    requires 0 < |name| <= 254 && |name| + 2 <= buffer.Length && Lower(name) == name && IsSubdomain(name)
    modifies buffer
    ensures Encodable(Split(name)) && buffer[..|name| + 2] == Wire(Split(name))
    ensures buffer[|name| + 2..] == old(buffer[|name| + 2..])
  {
    var labelPos, labelLen := 0, 0;
    ghost var done, last: Label := [], [];
    var i := 0;
    assert name[..0] == [];
    WrittenNothing(buffer[..]);
    while i < |name|
      invariant 0 <= i <= |name| && labelPos <= i && labelLen == |last|
      invariant Split(name[..i]) == done + [last]
      invariant Written(buffer[..], i, labelPos, done, last)
      invariant buffer[|name| + 2..] == old(buffer[|name| + 2..])
    {
      SplitNext(name, i, done, last);
      if name[i] == DOT {
        WrittenDot(buffer[..], i, labelPos, done, last);
        Put(buffer, labelPos, labelLen as Byte, |name| + 2);
        done, last := done + [last], [];
        labelLen := 0;
        labelPos := i + 1;
      } else {
        assert Lower(name)[i] == ToLower(name[i]);
        WrittenChar(buffer[..], i, labelPos, done, last, name[i]);
        Put(buffer, i + 1, ToLower(name[i]), |name| + 2);
        last := last + [name[i]];
        labelLen := labelLen + 1;
      }
      i := i + 1;
    }
    assert name[..i] == name;
    WrittenAll(buffer[..], i, labelPos, done, last);
    Put(buffer, labelPos, labelLen as Byte, |name| + 2);
    Put(buffer, |name| + 1, 0, |name| + 2);
    assert buffer[..|name| + 2] == buffer[..][..|name| + 2];
  }

  /** One byte; what is past `end` stays. */
  method Put(buffer: array<Byte>, at: nat, b: Byte, ghost end: nat)
    requires at < end <= buffer.Length
    modifies buffer
    ensures buffer[..] == old(buffer[..])[at := b] && buffer[end..] == old(buffer[end..])
  {
    buffer[at] := b;
  }

  /** Labels with a dot after each. */
  function Dotted(labels: seq<Label>): seq<Byte> {
    if labels == [] then [] else Dotted(labels[..|labels| - 1]) + labels[|labels| - 1] + [DOT]
  }

  lemma {:induction false} DottedJoin(labels: seq<Label>)
    requires labels != []
    ensures Dotted(labels) == Join(labels) + [DOT]
  {
    if |labels| > 1 {
      var init, last := labels[..|labels| - 1], labels[|labels| - 1];
      DottedJoin(init);
      JoinAppend(init, [last]);
      assert labels == init + [last];
    } else {
      assert Dotted(labels[..0]) == [];
    }
  }

  /** The labels that count: all but wildcards. */
  function Counted(labels: seq<Label>): nat {
    if labels == [] then 0
    else Counted(labels[..|labels| - 1]) + if labels[|labels| - 1] == [STAR] then 0 else 1
  }

  function Min(a: nat, b: nat): nat {
    if a < b then a else b
  }

  lemma DottedSnoc(done: seq<Label>, l: Label)
    ensures Dotted(done + [l]) == Dotted(done) + l + [DOT]
    ensures Counted(done + [l]) == Counted(done) + if |l| == 1 && l[0] == STAR then 0 else 1
  {
    assert (done + [l])[..|done|] == done;
  }

  /** The name that a list of labels makes. */
  function FromLabels(labels: seq<Label>): DomainName
    requires Encodable(labels)
  {
    if labels == [] then ROOT else DomainName(Join(labels), |Wire(labels)|, Counted(labels))
  }

  /** The rest of the buffer decodes to what follows the labels already read. */
  ghost predicate Reading(buffer: seq<Byte>, pos: nat, done: seq<Label>) {
    pos <= |buffer| && pos <= MAX_NAME_LENGTH && Passed(buffer, pos, done) && ToCome(buffer, pos, done)
  }

  ghost predicate Passed(buffer: seq<Byte>, pos: nat, done: seq<Label>)
    requires pos <= |buffer|
  {
    forall u {:trigger Seen(u)} :: Seen(u) ==> Encodable(done) && buffer[..pos] == Front(done)
  }

  ghost predicate ToCome(buffer: seq<Byte>, pos: nat, done: seq<Label>)
    requires pos <= |buffer| && pos <= MAX_NAME_LENGTH
  {
    forall u {:trigger Seen(u)} :: Seen(u) ==>
      Decode(buffer, MAX_NAME_LENGTH) == Behind(done, Decode(buffer[pos..], MAX_NAME_LENGTH - pos))
  }

  /** More labels behind those already read. */
  function Behind(done: seq<Label>, more: Option<seq<Label>>): Option<seq<Label>> {
    match more
    case None => None
    case Some(labels) => Some(done + labels)
  }

  lemma ReadingStart(buffer: seq<Byte>)
    ensures Reading(buffer, 0, [])
  {
    assert buffer[0..] == buffer;
    assert forall rest: seq<Label> :: [] + rest == rest;
  }

  lemma ReadingStep(buffer: seq<Byte>, pos: nat, done: seq<Label>, n: nat)
    requires Reading(buffer, pos, done) && pos < |buffer| && n == buffer[pos] as nat
    requires 0 < n && pos + n + 1 <= |buffer| && pos + n + 1 <= MAX_NAME_LENGTH
    ensures Reading(buffer, pos + n + 1, done + [buffer[pos + 1..pos + n + 1]])
  {
    var l := buffer[pos + 1..pos + n + 1];
    DecodeOn(buffer, pos, done, l);
    FrontRead(buffer, pos, done, l);
  }

  lemma DecodeOn(buffer: seq<Byte>, pos: nat, done: seq<Label>, l: Label)
    requires 0 < |l| < 256 && pos + |l| + 1 <= |buffer| && pos + |l| + 1 <= MAX_NAME_LENGTH
    requires buffer[pos] == |l| as Byte && buffer[pos + 1..pos + |l| + 1] == l
    requires ToCome(buffer, pos, done)
    ensures ToCome(buffer, pos + |l| + 1, done + [l])
  {
    assert Seen(0);
    DecodeStep(buffer, pos, l, MAX_NAME_LENGTH - pos);
    BehindBoth(done, l, Decode(buffer[pos + |l| + 1..], MAX_NAME_LENGTH - (pos + |l| + 1)));
  }

  lemma DecodeStep(buffer: seq<Byte>, pos: nat, l: Label, limit: nat)
    requires 0 < |l| < 256 && pos + |l| + 1 <= |buffer| && |l| + 1 <= limit
    requires buffer[pos] == |l| as Byte && buffer[pos + 1..pos + |l| + 1] == l
    ensures Decode(buffer[pos..], limit) == Behind([l], Decode(buffer[pos + |l| + 1..], limit - |l| - 1))
  {
    var rest := buffer[pos + |l| + 1..];
    assert buffer[pos..] == [|l| as Byte] + l + rest;
    DecodeCons(buffer[pos..], limit, l, rest);
  }

  lemma BehindBoth(done: seq<Label>, l: Label, more: Option<seq<Label>>)
    ensures Behind(done, Behind([l], more)) == Behind(done + [l], more)
  {
    if more.Some? {
      assert done + ([l] + more.value) == done + [l] + more.value;
    }
  }

  lemma FrontRead(buffer: seq<Byte>, pos: nat, done: seq<Label>, l: Label)
    requires |l| < 256 && pos + |l| + 1 <= |buffer| && Passed(buffer, pos, done)
    requires buffer[pos] == |l| as Byte && buffer[pos + 1..pos + |l| + 1] == l
    ensures Passed(buffer, pos + |l| + 1, done + [l])
  {
    assert Seen(0);
    FrontSnoc(done, l);
    assert buffer[..pos + |l| + 1] == buffer[..pos] + [|l| as Byte] + l;
  }

  /** The constructor from a buffer: it accepts exactly what decodes within 255 bytes. */
  method FromWire(buffer: seq<Byte>) returns (r: Option<DomainName>)
    ensures var labels := Decode(buffer, MAX_NAME_LENGTH);
      && (r.Some? <==> labels.Some?)
      && (r.Some? ==> Encodable(labels.value) && r.value == FromLabels(labels.value))
  {
    if |buffer| == 0 {
      return None;
    }
    var limit := Min(MAX_NAME_LENGTH, |buffer|);
    var len, numLabels := 0, 0;
    var name: seq<Byte> := [];
    ghost var done: seq<Label> := [];
    ReadingStart(buffer);
    while len < limit
      invariant 0 <= len <= limit && Reading(buffer, len, done)
      invariant name == Dotted(done) && numLabels == Counted(done)
      decreases limit - len
    {
      var labelLen := buffer[len] as nat;
      if len + labelLen + 1 > limit {
        NoMoreLabels(buffer, len, done);
        return None;
      }
      var bytes := buffer[len + 1..len + labelLen + 1];
      if labelLen == 0 {
        EndOfLabels(buffer, len, done);
        if len == 0 {
          return Some(DomainName([SPACE], 1, 0));
        }
        return Some(DomainName(name[..|name| - 1], len + 1, numLabels));
      } else if !(labelLen == 1 && buffer[len + 1] == STAR) {
        numLabels := numLabels + 1;
      }
      ReadingStep(buffer, len, done, labelLen);
      DottedSnoc(done, bytes);
      name := name + bytes + [DOT];
      done := done + [bytes];
      len := len + labelLen + 1;
    }
    NoMoreLabels(buffer, len, done);
    r := None;
  }

  /** No label fits what is left, not even the empty one. */
  lemma NoMoreLabels(buffer: seq<Byte>, pos: nat, done: seq<Label>)
    requires Reading(buffer, pos, done)
    requires pos < |buffer| ==> pos + buffer[pos] as nat + 1 > Min(MAX_NAME_LENGTH, |buffer|)
    ensures Decode(buffer, MAX_NAME_LENGTH) == None
  {
    assert Seen(0);
  }

  lemma EndOfLabels(buffer: seq<Byte>, pos: nat, done: seq<Label>)
    requires Reading(buffer, pos, done) && pos < |buffer| && pos < MAX_NAME_LENGTH && buffer[pos] == 0
    ensures Decode(buffer, MAX_NAME_LENGTH) == Some(done) && Encodable(done) && |Wire(done)| == pos + 1
    ensures done == [] <==> pos == 0
    ensures done != [] ==> Dotted(done) == Join(done) + [DOT]
  {
    assert Seen(0);
    assert done + [] == done;
    WireIsFront(done);
    if done != [] {
      DottedJoin(done);
    }
  }

  /** A label of the grammar is no wildcard, so every label counts. */
  lemma {:induction false} LabelsCount(labels: seq<Label>)
    requires forall l :: l in labels ==> IsLabel(l)
    ensures Counted(labels) == |labels|
  {
    if labels != [] {
      LabelsCount(labels[..|labels| - 1]);
      assert labels[|labels| - 1] in labels;
      assert !IsLetter(STAR);
    }
  }

  lemma FromLabelsOf(d: DomainName)
    requires WellFormed(d)
    ensures Sendable(LabelsOf(d)) && Encodable(LabelsOf(d)) && FromLabels(LabelsOf(d)) == d
  {
    WellFormedText(d);
    if d != ROOT {
      var labels := Split(d.name);
      SplitShort(d.name);
      assert forall l :: l in labels ==> IsLabel(l) && 0 < |l| < 256;
      LabelsCount(labels);
      JoinSplit(d.name);
      WireLength(labels);
    }
  }

  /** Two names from buffers, different and with different labels, that `operator==` takes for equal. */
  lemma EmbeddedNull() returns (d: DomainName, e: DomainName)
    ensures Decode([3, 97, 0, 120, 0], MAX_NAME_LENGTH) == Some([[97, 0, 120]]) && d == FromLabels([[97, 0, 120]])
    ensures Decode([3, 97, 98, 99, 0], MAX_NAME_LENGTH) == Some([[97, 98, 99]]) && e == FromLabels([[97, 98, 99]])
    ensures Measured(d) && Measured(e) && d != e && SameAs(d, e)
    ensures LabelsOf(d) == [[97]] && LabelsOf(e) == [[97, 98, 99]]
  {
    var l: Label, k: Label := [97, 0, 120], [97, 98, 99];
    d, e := FromLabels([l]), FromLabels([k]);
    OneLabel(l);
    OneLabel(k);
    Spelled(97, 0, 120);
    Spelled(97, 98, 99);
    TextLengthIs(l, 1);
    TextLengthIs(k, 3);
    assert Text(l) == [97] && Text(k) == k;
    SplitLabel([97]);
    SplitLabel(k);
  }

  lemma Spelled(x: Byte, y: Byte, z: Byte)
    ensures [3] + [x, y, z] + [0] == [3, x, y, z, 0]
  {}

  lemma OneLabel(l: Label)
    requires 0 < |l| <= 253 && l != [STAR]
    ensures FromLabels([l]) == DomainName(l, |l| + 2, 1)
    ensures Decode([|l| as Byte] + l + [0], MAX_NAME_LENGTH) == Some([l])
  {
    WireCons(l, []);
    assert [l] + [] == [l];
    WireLength([l]);
    assert Counted([l]) == Counted([l][..0]) + 1;
    DecodeWire([l], [], MAX_NAME_LENGTH);
    assert Wire([l]) + [] == [|l| as Byte] + l + [0];
  }

  /** Writing a name and reading it back gives the name, exactly when it fits 255 bytes. */
  method RoundTrip(d: DomainName) returns (back: Option<DomainName>)
    requires WellFormed(d)
    ensures back == if d.len <= MAX_NAME_LENGTH then Some(d) else None
    ensures d.len <= MAX_NAME_LENGTH <==> |d.name| <= 253
  {
    var buffer := new Byte[d.len](_ => 0);
    var n := Serialize(d, buffer);
    back := FromWire(buffer[..n]);
    FromLabelsOf(d);
    DecodeWire(LabelsOf(d), [], MAX_NAME_LENGTH);
    assert Wire(LabelsOf(d)) + [] == buffer[..n];
  }
}
