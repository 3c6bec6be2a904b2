// The string functions of Go's standard library the modelled code relies on.
module Text {

  // unicode.IsSpace
  predicate IsSpace(c: char) {
    || '\t' <= c <= '\r'
    || c == ' ' || c == '\U{85}' || c == '\U{A0}' || c == '\U{1680}'
    || '\U{2000}' <= c <= '\U{200A}'
    || c == '\U{2028}' || c == '\U{2029}' || c == '\U{202F}' || c == '\U{205F}' || c == '\U{3000}'
  }

  function TrimLeft(s: string): (r: string)
    ensures r == [] || !IsSpace(r[0])
    ensures |r| <= |s|
  {
    if s != [] && IsSpace(s[0]) then TrimLeft(s[1..]) else s
  }

  function TrimRight(s: string): (r: string)
    ensures r == [] || !IsSpace(r[|r| - 1])
    ensures |r| <= |s| && r == s[..|r|]
  {
    if s != [] && IsSpace(s[|s| - 1]) then TrimRight(s[..|s| - 1]) else s
  }

  // strings.TrimSpace
  function Trim(s: string): string {
    TrimRight(TrimLeft(s))
  }

  // No space at either end.
  predicate Trimmed(s: string) {
    s == [] || (!IsSpace(s[0]) && !IsSpace(s[|s| - 1]))
  }

  lemma TrimIsTrimmed(s: string)
    ensures Trimmed(Trim(s))
    ensures Trimmed(s) <==> Trim(s) == s
  {
    var l := TrimLeft(s);
    var t := TrimRight(l);
    assert t != [] ==> t[0] == l[0];
  }

  predicate AllSpace(s: string) {
    forall i :: 0 <= i < |s| ==> IsSpace(s[i])
  }

  // Trimming cuts blanks off both ends and nothing else.
  lemma TrimCutsBlanks(s: string) returns (left: string, right: string)
    ensures s == left + Trim(s) + right && AllSpace(left) && AllSpace(right)
    ensures Trimmed(Trim(s))
  {
    TrimIsTrimmed(s);
    left := CutLeft(s);
    right := CutRight(TrimLeft(s));
    assert left + Trim(s) + right == left + (Trim(s) + right);
  }

  lemma {:induction false} CutLeft(s: string) returns (left: string)
    ensures s == left + TrimLeft(s) && AllSpace(left)
  {
    left := "";
    if s != [] && IsSpace(s[0]) {
      var rest := CutLeft(s[1..]);
      left := [s[0]] + rest;
    }
  }

  lemma {:induction false} CutRight(s: string) returns (right: string)
    ensures s == TrimRight(s) + right && AllSpace(right)
  {
    right := "";
    if s != [] && IsSpace(s[|s| - 1]) {
      var rest := CutRight(s[..|s| - 1]);
      right := rest + [s[|s| - 1]];
      assert s == s[..|s| - 1] + [s[|s| - 1]];
    }
  }

  // A character in front of a split text: it starts a new part if it is the separator.
  function InFront(c: char, sep: char, parts: seq<string>): seq<string>
    requires |parts| >= 1
  {
    if c == sep then [""] + parts else [[c] + parts[0]] + parts[1..]
  }

  // strings.Split with a one-character separator
  function Split(s: string, sep: char): (r: seq<string>)
    ensures |r| >= 1
    ensures forall i :: 0 <= i < |r| ==> sep !in r[i]
    ensures sep !in s ==> r == [s]
  {
    if s == [] then [""]
    else
      assert s == [s[0]] + s[1..];
      InFront(s[0], sep, Split(s[1..], sep))
  }

  lemma {:induction false} SplitAt(a: string, sep: char, b: string)
    ensures Split(a + [sep] + b, sep) == Split(a, sep) + Split(b, sep)
  {
    if a == [] {
      assert a + [sep] + b == [sep] + b;
      SplitFirst(sep, b, sep);
    } else {
      var t := a[1..];
      assert a + [sep] + b == [a[0]] + (t + [sep] + b) && a == [a[0]] + t;
      SplitAt(t, sep, b);
      SplitFirst(a[0], t + [sep] + b, sep);
      SplitFirst(a[0], t, sep);
      InFrontOfBoth(a[0], sep, Split(t, sep), Split(b, sep));
    }
  }

  lemma SplitFirst(c: char, s: string, sep: char)
    ensures Split([c] + s, sep) == InFront(c, sep, Split(s, sep))
  {
    assert ([c] + s)[1..] == s;
  }

  lemma InFrontOfBoth(c: char, sep: char, xs: seq<string>, ys: seq<string>)
    requires |xs| >= 1
    ensures InFront(c, sep, xs + ys) == InFront(c, sep, xs) + ys
  {
  }

  lemma {:induction false} SplitWithin(s: string, sep: char, c: char)
    requires c !in s
    ensures forall i :: 0 <= i < |Split(s, sep)| ==> c !in Split(s, sep)[i]
  {
    if s != [] {
      SplitWithin(s[1..], sep, c);
    }
  }

  // strings.Join
  function JoinWith(list: seq<string>, sep: string): string {
    if list == [] then ""
    else if |list| == 1 then list[0]
    else JoinWith(list[..|list| - 1], sep) + sep + list[|list| - 1]
  }

  // Joined at the separator, the parts give the text back.
  lemma {:induction false} JoinOfSplit(s: string, sep: char)
    ensures JoinWith(Split(s, sep), [sep]) == s
  {
    if s != [] {
      JoinOfSplit(s[1..], sep);
      JoinInFront(s[0], sep, Split(s[1..], sep));
      SplitFirst(s[0], s[1..], sep);
      assert s == [s[0]] + s[1..];
    }
  }

  lemma {:induction false} JoinInFront(c: char, sep: char, parts: seq<string>)
    requires |parts| >= 1
    ensures JoinWith(InFront(c, sep, parts), [sep]) == [c] + JoinWith(parts, [sep])
    decreases |parts|
  {
    var n := |parts| - 1;
    if n == 0 {
      if c == sep {
        assert InFront(c, sep, parts)[..1] == [""];
      } else {
        assert InFront(c, sep, parts) == [[c] + parts[0]];
      }
    } else {
      var front := parts[..n];
      JoinInFront(c, sep, front);
      assert parts == front + [parts[n]];
      InFrontOfBoth(c, sep, front, [parts[n]]);
      JoinLast(front, parts[n], [sep]);
      JoinLast(InFront(c, sep, front), parts[n], [sep]);
      assert [c] + (JoinWith(front, [sep]) + [sep] + parts[n]) == ([c] + JoinWith(front, [sep])) + [sep] + parts[n];
    }
  }

  lemma JoinLast(list: seq<string>, last: string, sep: string)
    requires list != []
    ensures JoinWith(list + [last], sep) == JoinWith(list, sep) + sep + last
  {
    assert (list + [last])[..|list|] == list;
  }

  // The parts, trimmed, without the empty ones.
  function Cleaned(parts: seq<string>): (r: seq<string>)
    ensures "" !in r
    ensures forall i :: 0 <= i < |r| ==> Trimmed(r[i])
  {
    if parts == [] then []
    else
      var n := |parts| - 1;
      TrimIsTrimmed(parts[n]);
      if Trim(parts[n]) == "" then Cleaned(parts[..n]) else Cleaned(parts[..n]) + [Trim(parts[n])]
  }

  lemma CleanedOne(part: string)
    ensures Cleaned([part]) == if Trim(part) == "" then [] else [Trim(part)]
  {
    assert [part][..0] == [];
  }

  lemma {:induction false} CleanedAppend(xs: seq<string>, ys: seq<string>)
    ensures Cleaned(xs + ys) == Cleaned(xs) + Cleaned(ys)
  {
    if ys == [] {
      assert xs + ys == xs;
    } else {
      var n := |ys| - 1;
      assert (xs + ys)[..|xs + ys| - 1] == xs + ys[..n];
      CleanedAppend(xs, ys[..n]);
    }
  }

  lemma {:induction false} CleanedWithin(parts: seq<string>, c: char)
    requires forall i :: 0 <= i < |parts| ==> c !in parts[i]
    ensures forall i :: 0 <= i < |Cleaned(parts)| ==> c !in Cleaned(parts)[i]
  {
    if parts != [] {
      var n := |parts| - 1;
      CleanedWithin(parts[..n], c);
      TrimWithin(parts[n], c);
    }
  }

  lemma {:induction false} TrimLeftWithin(s: string, c: char)
    ensures c in TrimLeft(s) ==> c in s
    ensures exists k :: 0 <= k <= |s| && TrimLeft(s) == s[k..]
  {
    if s != [] && IsSpace(s[0]) {
      TrimLeftWithin(s[1..], c);
      var k :| 0 <= k <= |s[1..]| && TrimLeft(s[1..]) == s[1..][k..];
      assert s[1..][k..] == s[k + 1..];
    } else {
      assert TrimLeft(s) == s[0..];
    }
  }

  lemma TrimWithin(s: string, c: char)
    ensures c in Trim(s) ==> c in s
  {
    TrimLeftWithin(s, c);
  }

  // Padding with single blanks does not survive trimming.
  lemma TrimPadded(x: string, left: string, right: string)
    requires x != "" && Trimmed(x) && (left == "" || left == " ") && (right == "" || right == " ")
    ensures Trim(left + x + right) == x
  {
    var padded := left + x + right;
    assert TrimLeft(padded) == x + right by {
      if left == " " {
        assert padded[0] == ' ' && padded[1..] == x + right;
        assert TrimLeft(padded) == TrimLeft(x + right);
      } else {
        assert padded == x + right;
      }
      assert (x + right)[0] == x[0];
    }
    if right == " " {
      assert (x + right)[..|x + right| - 1] == x;
      assert TrimRight(x + right) == TrimRight(x);
    } else {
      assert x + right == x;
    }
    assert TrimRight(x) == x;
  }

  lemma TrimKeeps(s: string, c: char)
    requires c in s && !IsSpace(c)
    ensures c in Trim(s)
  {
    TrimLeftKeeps(s, c);
    TrimRightKeeps(TrimLeft(s), c);
  }

  lemma {:induction false} TrimLeftKeeps(s: string, c: char)
    requires c in s && !IsSpace(c)
    ensures c in TrimLeft(s)
  {
    if IsSpace(s[0]) {
      TrimLeftKeeps(s[1..], c);
    }
  }

  lemma {:induction false} TrimRightKeeps(s: string, c: char)
    requires c in s && !IsSpace(c)
    ensures c in TrimRight(s)
  {
    if IsSpace(s[|s| - 1]) {
      TrimRightKeeps(s[..|s| - 1], c);
    }
  }

  // strings.EqualFold against ASCII text: the long s and the Kelvin sign fold to ASCII letters too.
  function FoldChar(c: char): char {
    if 'A' <= c <= 'Z' then c - 'A' + 'a' else if c == '\U{17F}' then 's' else if c == '\U{212A}' then 'k' else c
  }

  function Fold(s: string): string {
    seq(|s|, i requires 0 <= i < |s| => FoldChar(s[i]))
  }

  function LowerChar(c: char): char {
    if 'A' <= c <= 'Z' then c - 'A' + 'a' else c
  }

  predicate Ascii(s: string) {
    forall i :: 0 <= i < |s| ==> s[i] < '\U{80}'
  }

  // The same character, or the upper and the lower case of one of the 26 letters.
  predicate SameLetter(a: char, b: char) {
    a == b || ('A' <= a <= 'Z' && b as int == a as int + 32) || ('A' <= b <= 'Z' && a as int == b as int + 32)
  }

  // On ASCII text, folding and lower-casing both forget the case of letters and nothing else.
  lemma CaseForgotten(s: string, t: string)
    requires Ascii(s) && Ascii(t) && |s| == |t|
    ensures Fold(s) == Fold(t) <==> forall i :: 0 <= i < |s| ==> SameLetter(s[i], t[i])
    ensures Lower(s) == Lower(t) <==> forall i :: 0 <= i < |s| ==> SameLetter(s[i], t[i])
  {
    if Fold(s) == Fold(t) {
      assert forall i :: 0 <= i < |s| ==> FoldChar(s[i]) == Fold(s)[i] && FoldChar(t[i]) == Fold(t)[i];
    }
    if Lower(s) == Lower(t) {
      assert forall i :: 0 <= i < |s| ==> LowerChar(s[i]) == Lower(s)[i] && LowerChar(t[i]) == Lower(t)[i];
    }
  }

  // strings.ToLower on ASCII text. No letter outside ASCII is lowered to one of "true", "yes" and "y" either, the words
  // it is used to find elsewhere.
  function Lower(s: string): string {
    seq(|s|, i requires 0 <= i < |s| => LowerChar(s[i]))
  }
}
