/** String helpers with the meaning of the Python built-ins the pipeline uses:
    str.isspace, str.rstrip, str.strip, str.strip(chars), str.endswith,
    str.startswith, str.join and str.split(sep). A Dafny `char` is a Unicode
    scalar value, so `|s|` is Python's `len(s)`. */
module Text {

  /** Python's str.isspace(). The same character set is matched by `\s` in
      a str regular expression and removed by str.strip() / str.rstrip(). */
  predicate IsSpace(c: char) {
    || c == ' '
    || ('\t' <= c <= '\r')
    || ('\U{1c}' <= c <= '\U{1f}')
    || c == '\U{85}'
    || c == '\U{a0}'
    || c == '\U{1680}'
    || ('\U{2000}' <= c <= '\U{200a}')
    || c == '\U{2028}'
    || c == '\U{2029}'
    || c == '\U{202f}'
    || c == '\U{205f}'
    || c == '\U{3000}'
  }

  predicate AllSpace(s: string) {
    forall i :: 0 <= i < |s| ==> IsSpace(s[i])
  }

  /** The non-whitespace characters of `s`, in order. */
  function NonSpace(s: string): string {
    if |s| == 0 then [] else (if IsSpace(s[0]) then [] else [s[0]]) + NonSpace(s[1..])
  }

  lemma {:induction false} NonSpaceAppend(a: string, b: string)
    ensures NonSpace(a + b) == NonSpace(a) + NonSpace(b)
    decreases |a|
  {
    if |a| > 0 {
      assert (a + b)[0] == a[0];
      assert (a + b)[1..] == a[1..] + b;
      NonSpaceAppend(a[1..], b);
    } else {
      assert a + b == b;
    }
  }

  lemma {:induction false} NonSpaceOfAllSpace(s: string)
    requires AllSpace(s)
    ensures NonSpace(s) == []
    decreases |s|
  {
    if |s| > 0 {
      NonSpaceOfAllSpace(s[1..]);
    }
  }

  /** The characters a strip removes: whitespace (`s.strip()`) or one given
      character (`s.strip(c)`). */
  datatype Strippable = Whitespace | Only(c: char)

  predicate Strips(k: Strippable, x: char) {
    match k
    case Whitespace => IsSpace(x)
    case Only(c) => x == c
  }

  /** Removes the longest suffix whose characters are all stripped by `p`. */
  function DropLastWhile(s: string, p: Strippable): (r: string)
    ensures |r| <= |s|
    ensures r == s[..|r|]
    ensures r == [] || !Strips(p, r[|r| - 1])
    decreases |s|
  {
    if |s| > 0 && Strips(p, s[|s| - 1]) then DropLastWhile(s[..|s| - 1], p) else s
  }

  /** Only stripped characters are removed from the end. */
  lemma {:induction false} DropLastWhileDropsOnly(s: string, p: Strippable)
    ensures forall i :: |DropLastWhile(s, p)| <= i < |s| ==> Strips(p, s[i])
    decreases |s|
  {
    if |s| > 0 && Strips(p, s[|s| - 1]) {
      DropLastWhileDropsOnly(s[..|s| - 1], p);
    }
  }

  /** Removes the longest prefix whose characters are all stripped by `p`. */
  function DropFirstWhile(s: string, p: Strippable): (r: string)
    ensures |r| <= |s|
    ensures r == s[|s| - |r|..]
    ensures r == [] || !Strips(p, r[0])
    decreases |s|
  {
    if |s| > 0 && Strips(p, s[0]) then DropFirstWhile(s[1..], p) else s
  }

  /** Only stripped characters are removed from the front. */
  lemma {:induction false} DropFirstWhileDropsOnly(s: string, p: Strippable)
    ensures forall i :: 0 <= i < |s| - |DropFirstWhile(s, p)| ==> Strips(p, s[i])
    decreases |s|
  {
    if |s| > 0 && Strips(p, s[0]) {
      DropFirstWhileDropsOnly(s[1..], p);
    }
  }

  /** Python's s.rstrip(). */
  function RStrip(s: string): string {
    DropLastWhile(s, Whitespace)
  }

  /** Python's s.strip(): neither end of the result is whitespace. */
  function Strip(s: string): (r: string)
    ensures |r| <= |s|
    ensures r == [] || (!IsSpace(r[0]) && !IsSpace(r[|r| - 1]))
  {
    var t := DropLastWhile(s, Whitespace);
    var r := DropFirstWhile(t, Whitespace);
    assert r == [] || r[|r| - 1] == t[|t| - 1];
    r
  }

  /** The stripped text is the slice of `s` starting after its leading
      whitespace; only whitespace lies outside it. */
  lemma StripIsSlice(s: string)
    ensures var o := |RStrip(s)| - |Strip(s)|;
            && 0 <= o <= |s| - |Strip(s)|
            && Strip(s) == s[o..o + |Strip(s)|]
            && AllSpace(s[..o]) && AllSpace(s[o + |Strip(s)|..])
  {
    var t := DropLastWhile(s, Whitespace);
    var r := Strip(s);
    var o := |t| - |r|;
    DropLastWhileDropsOnly(s, Whitespace);
    DropFirstWhileDropsOnly(t, Whitespace);
    assert t == s[..|t|];
    assert r == t[o..];
    forall k | 0 <= k < o ensures IsSpace(s[..o][k]) {
      assert Strips(Whitespace, t[k]);
    }
    forall k | 0 <= k < |s| - |t| ensures IsSpace(s[|t|..][k]) {
      assert Strips(Whitespace, s[|t| + k]);
    }
  }

  /** Stripping removes whitespace only. */
  lemma StripKeepsNonSpace(s: string)
    ensures NonSpace(Strip(s)) == NonSpace(s)
  {
    StripIsSlice(s);
    var r := Strip(s);
    var o := |RStrip(s)| - |r|;
    var e := o + |r|;
    assert s == s[..o] + r + s[e..];
    NonSpaceOfAllSpace(s[..o]);
    NonSpaceOfAllSpace(s[e..]);
    NonSpaceAppend(s[..o], r);
    NonSpaceAppend(s[..o] + r, s[e..]);
  }

  /** A string ending in a non-whitespace character keeps that end when stripped. */
  lemma StripKeepsLast(s: string)
    requires |s| > 0 && !IsSpace(s[|s| - 1])
    ensures |Strip(s)| > 0 && Strip(s)[|Strip(s)| - 1] == s[|s| - 1]
  {
    StripIsSlice(s);
  }

  /** Stripping a string that already has no whitespace at its ends changes nothing. */
  lemma StripStripped(s: string)
    requires s == [] || (!IsSpace(s[0]) && !IsSpace(s[|s| - 1]))
    ensures Strip(s) == s
  {
  }

  /** Python's s.strip(c) for a one-character argument: both ends. */
  function StripChar(s: string, c: char): string {
    DropFirstWhile(DropLastWhile(s, Only(c)), Only(c))
  }

  predicate EndsWith(s: string, c: char) {
    |s| > 0 && s[|s| - 1] == c
  }

  predicate StartsWith(s: string, prefix: string) {
    |prefix| <= |s| && s[..|prefix|] == prefix
  }

  /** Python's sep.join(parts). */
  function Join(parts: seq<string>, sep: string): string
    decreases |parts|
  {
    if |parts| == 0 then ""
    else if |parts| == 1 then parts[0]
    else parts[0] + sep + Join(parts[1..], sep)
  }

  /** Concatenation of all parts (Python's ''.join(parts)). */
  function Concat(parts: seq<string>): string
    decreases |parts|
  {
    if |parts| == 0 then "" else parts[0] + Concat(parts[1..])
  }

  lemma {:induction false} ConcatAppend(a: seq<string>, b: seq<string>)
    ensures Concat(a + b) == Concat(a) + Concat(b)
    decreases |a|
  {
    if |a| > 0 {
      ConcatAppend(a[1..], b);
      assert (a + b)[1..] == a[1..] + b;
    } else {
      assert a + b == b;
    }
  }

  lemma AppendAssociates<T>(a: seq<T>, b: seq<T>, c: seq<T>)
    ensures (a + b) + c == a + (b + c)
  {
  }

  /** Python's s.split(c) for a one-character separator. */
  function SplitOn(s: string, c: char): (r: seq<string>)
    ensures |r| >= 1
    ensures forall i :: 0 <= i < |r| ==> c !in r[i]
    ensures Join(r, [c]) == s
    decreases |s|
  {
    if |s| == 0 then [""]
    else
      var rest := SplitOn(s[1..], c);
      if s[0] == c then
        assert [c] + Join(rest, [c]) == s;
        [""] + rest
      else
        JoinConsHead(s[0], rest, [c]);
        [[s[0]] + rest[0]] + rest[1..]
  }

  lemma JoinConsHead(x: char, parts: seq<string>, sep: string)
    requires |parts| >= 1
    ensures Join([[x] + parts[0]] + parts[1..], sep) == [x] + Join(parts, sep)
  {
    var q := [[x] + parts[0]] + parts[1..];
    assert q[1..] == parts[1..];
  }

  /** Appending one more part to a non-empty join adds exactly one separator. */
  lemma {:induction false} JoinSnoc(parts: seq<string>, x: string, sep: string)
    requires |parts| >= 1
    ensures Join(parts + [x], sep) == Join(parts, sep) + sep + x
    decreases |parts|
  {
    if |parts| > 1 {
      assert (parts + [x])[1..] == parts[1..] + [x];
      JoinSnoc(parts[1..], x, sep);
    }
  }

  /** Joining with a separator absent from every part and splitting again
      gives the parts back. */
  lemma {:induction false} SplitOnJoin(parts: seq<string>, c: char)
    requires |parts| >= 1
    requires forall i :: 0 <= i < |parts| ==> c !in parts[i]
    ensures SplitOn(Join(parts, [c]), c) == parts
    decreases |parts|, |parts[0]|
  {
    if |parts[0]| == 0 {
      if |parts| > 1 {
        JoinAfterEmptyHead(parts, c);
        SplitOnJoin(parts[1..], c);
      }
    } else {
      var h := parts[0];
      var q := [h[1..]] + parts[1..];
      assert h[0] in parts[0];
      JoinAfterFirstChar(parts, c);
      assert forall i :: 1 <= i < |q| ==> q[i] == parts[i];
      SplitOnJoin(q, c);
      assert [h[0]] + h[1..] == h;
      assert [[h[0]] + q[0]] + q[1..] == parts;
    }
  }

  /** A join that starts with an empty part starts with the separator. */
  lemma JoinAfterEmptyHead(parts: seq<string>, c: char)
    requires |parts| > 1 && parts[0] == []
    ensures Join(parts, [c]) == [c] + Join(parts[1..], [c])
  {
  }

  /** Past its first character, a join is the join with that character
      taken off the first part. */
  lemma JoinAfterFirstChar(parts: seq<string>, c: char)
    requires |parts| >= 1 && |parts[0]| > 0
    ensures |Join(parts, [c])| > 0 && Join(parts, [c])[0] == parts[0][0]
    ensures Join(parts, [c])[1..] == Join([parts[0][1..]] + parts[1..], [c])
  {
    var q := [parts[0][1..]] + parts[1..];
    assert q[1..] == parts[1..];
  }
}
