/** `TreeNode::from_vec_str` (src/treenode.rs): a tree written as text,
    `[3, 0, 4, null, 2]`, is trimmed, stripped of its brackets, split at
    commas, and every trimmed token is either `null` or an `i32` literal.

    The string operations it relies on (`str::trim`, `str::split`,
    `i32::from_str`) are library code; they are modelled here as functions
    with the behaviour the Rust standard library documents. */
module TextFormat {
  import opened Trees
  import opened Arena
  import LevelOrder

  // ---------------------------------------------------------------------
  // `str::trim`

  /** `char::is_whitespace`: the characters with the Unicode `White_Space`
      property. */
  predicate IsWhitespace(c: char)
    ensures c == ' ' || c == '\t' || c == '\n' || c == '\r' ==> IsWhitespace(c)
    ensures IsWhitespace(c) ==> c as int < 0x21 || 0x7F <= c as int
  {
    var k := c as int;
    || 0x09 <= k <= 0x0D || k == 0x20 || k == 0x85 || k == 0xA0 || k == 0x1680
    || 0x2000 <= k <= 0x200A || k == 0x2028 || k == 0x2029 || k == 0x202F
    || k == 0x205F || k == 0x3000
  }

  /** `str::trim_start`: `r` is the suffix of `s` left after dropping its
      leading whitespace. */
  function TrimStart(s: string): (r: string)
    ensures |r| <= |s| && r == s[|s| - |r|..]
    ensures forall i :: 0 <= i < |s| - |r| ==> IsWhitespace(s[i])
    ensures r != [] ==> !IsWhitespace(r[0])
  {
    if |s| > 0 && IsWhitespace(s[0]) then TrimStart(s[1..]) else s
  }

  /** `str::trim_end`: `r` is the prefix of `s` left after dropping its
      trailing whitespace. */
  function TrimEnd(s: string): (r: string)
    ensures |r| <= |s| && r == s[..|r|]
    ensures forall i :: |r| <= i < |s| ==> IsWhitespace(s[i])
    ensures r != [] ==> !IsWhitespace(r[|r| - 1])
  {
    if |s| > 0 && IsWhitespace(s[|s| - 1]) then TrimEnd(s[..|s| - 1]) else s
  }

  /** `str::trim`. */
  function Trim(s: string): (r: string)
    ensures r != [] ==> !IsWhitespace(r[0]) && !IsWhitespace(r[|r| - 1])
  {
    TrimEnd(TrimStart(s))
  }

  /** Text that neither starts nor ends with whitespace is left as it is. */
  lemma TrimKeeps(t: string)
    requires t != [] ==> !IsWhitespace(t[0]) && !IsWhitespace(t[|t| - 1])
    ensures Trim(t) == t
  {
  }

  /** `trim_start` removes exactly a whitespace prefix in front of text that
      does not start with whitespace. */
  lemma {:induction false} TrimStartPadded(pad: string, u: string)
    requires forall i :: 0 <= i < |pad| ==> IsWhitespace(pad[i])
    requires u != [] ==> !IsWhitespace(u[0])
    ensures TrimStart(pad + u) == u
  {
    if pad == [] {
      assert pad + u == u;
    } else {
      assert (pad + u)[1..] == pad[1..] + u;
      TrimStartPadded(pad[1..], u);
    }
  }

  /** `trim_end` removes exactly a whitespace suffix behind text that does
      not end with whitespace. */
  lemma {:induction false} TrimEndPadded(u: string, pad: string)
    requires forall i :: 0 <= i < |pad| ==> IsWhitespace(pad[i])
    requires u != [] ==> !IsWhitespace(u[|u| - 1])
    ensures TrimEnd(u + pad) == u
  {
    if pad == [] {
      assert u + pad == u;
    } else {
      assert (u + pad)[..|u + pad| - 1] == u + pad[..|pad| - 1];
      TrimEndPadded(u, pad[..|pad| - 1]);
    }
  }

  /** Whitespace on both sides of trimmed text is removed. */
  lemma TrimSurrounded(pre: string, t: string, post: string)
    requires forall i :: 0 <= i < |pre| ==> IsWhitespace(pre[i])
    requires forall i :: 0 <= i < |post| ==> IsWhitespace(post[i])
    requires t != [] && !IsWhitespace(t[0]) && !IsWhitespace(t[|t| - 1])
    ensures Trim(pre + t + post) == t
  {
    assert pre + t + post == pre + (t + post);
    TrimStartPadded(pre, t + post);
    TrimEndPadded(t, post);
  }

  /** Text made only of whitespace trims to nothing. */
  lemma TrimBlank(s: string)
    requires forall i :: 0 <= i < |s| ==> IsWhitespace(s[i])
    ensures Trim(s) == []
  {
    assert s + [] == s;
    TrimStartPadded(s, []);
  }

  /** Leading whitespace is removed. */
  lemma {:induction false} TrimPadded(pad: string, t: string)
    requires forall i :: 0 <= i < |pad| ==> IsWhitespace(pad[i])
    requires t != [] && !IsWhitespace(t[0]) && !IsWhitespace(t[|t| - 1])
    ensures Trim(pad + t) == t
  {
    if pad == [] {
      assert pad + t == t;
    } else {
      assert (pad + t)[1..] == pad[1..] + t;
      TrimPadded(pad[1..], t);
    }
  }

  // ---------------------------------------------------------------------
  // `str::split` on a single character

  /** The pieces between the separators; `[""]` for the empty string. */
  function Split(s: string, sep: char): (parts: seq<string>)
    ensures |parts| >= 1
    ensures forall i :: 0 <= i < |parts| ==> sep !in parts[i]
    ensures Join(parts, sep) == s
  {
    if |s| == 0 then [""]
    else
      var rest := Split(s[1..], sep);
      if s[0] == sep then [""] + rest
      else
        assert Join(rest, sep) == s[1..];
        JoinCons(s[0], rest, sep);
        [[s[0]] + rest[0]] + rest[1..]
  }

  /** The pieces put back together with the separator between them. */
  function Join(parts: seq<string>, sep: char): string
    requires |parts| >= 1
  {
    if |parts| == 1 then parts[0] else parts[0] + [sep] + Join(parts[1..], sep)
  }

  lemma JoinCons(c: char, parts: seq<string>, sep: char)
    requires |parts| >= 1
    ensures Join([[c] + parts[0]] + parts[1..], sep) == [c] + Join(parts, sep)
  {
    var ps := [[c] + parts[0]] + parts[1..];
    if |parts| > 1 {
      assert ps[1..] == parts[1..];
    }
  }

  /** A piece without separators followed by the rest splits off as one piece. */
  lemma {:induction false} SplitFront(a: string, b: string, sep: char)
    requires sep !in a
    ensures Split(a + [sep] + b, sep) == [a] + Split(b, sep)
  {
    if a == [] {
      assert a + [sep] + b == [sep] + b;
      assert ([sep] + b)[1..] == b;
    } else {
      assert (a + [sep] + b)[1..] == a[1..] + [sep] + b;
      SplitFront(a[1..], b, sep);
      assert [a[0]] + a[1..] == a;
    }
  }

  /** A piece without separators is one piece. */
  lemma {:induction false} SplitWhole(a: string, sep: char)
    requires sep !in a
    ensures Split(a, sep) == [a]
  {
    if a != [] {
      SplitWhole(a[1..], sep);
      assert [a[0]] + a[1..] == a;
    }
  }

  /** Splitting undoes joining, as long as no piece holds the separator
      (the other direction, `Join(Split(s)) == s`, is `Split`'s contract). */
  lemma {:induction false} SplitJoin(parts: seq<string>, sep: char)
    requires |parts| >= 1 && forall i :: 0 <= i < |parts| ==> sep !in parts[i]
    ensures Split(Join(parts, sep), sep) == parts
  {
    if |parts| == 1 {
      SplitWhole(parts[0], sep);
    } else {
      SplitJoin(parts[1..], sep);
      SplitFront(parts[0], Join(parts[1..], sep), sep);
      assert [parts[0]] + parts[1..] == parts;
    }
  }

  // ---------------------------------------------------------------------
  // `i32::from_str`

  predicate IsDigit(c: char)
  {
    0x30 <= c as int <= 0x39
  }

  /** The value of a string of decimal digits. */
  function DigitsValue(ds: string): (n: nat)
    requires forall i :: 0 <= i < |ds| ==> IsDigit(ds[i])
  {
    if ds == [] then 0
    else
      assert IsDigit(ds[|ds| - 1]);
      DigitsValue(ds[..|ds| - 1]) * 10 + DigitValue(ds[|ds| - 1])
  }

  function DigitValue(c: char): (d: nat)
    requires IsDigit(c)
    ensures d <= 9
  {
    c as int - 0x30
  }

  /** `i32::from_str`: an optional `+` or `-`, then at least one decimal
      digit, and the value must fit in 32 bits; anything else is an error. */
  function ParseI32(s: string): (r: Option<i32>)
    ensures r.Some? ==> s != [] && (IsDigit(s[0]) || s[0] == '-' || s[0] == '+')
    ensures r.Some? ==> forall i :: 1 <= i < |s| ==> IsDigit(s[i])
  {
    if s == [] then None
    else
      var negative := s[0] == '-';
      var digits := if s[0] == '-' || s[0] == '+' then s[1..] else s;
      if digits == [] || exists i :: 0 <= i < |digits| && !IsDigit(digits[i]) then None
      else
        var m: int := DigitsValue(digits);
        var v := if negative then -m else m;
        if -0x8000_0000 <= v < 0x8000_0000 then Some(v as i32) else None
  }

  /** The decimal digits of `n`, most significant first. */
  function ShowNat(n: nat): (ds: string)
    ensures ds != [] && forall i :: 0 <= i < |ds| ==> IsDigit(ds[i])
    ensures DigitsValue(ds) == n
  {
    var d := ["0123456789"[n % 10]];
    if n < 10 then
      assert DigitsValue(d) == DigitsValue(d[..0]) * 10 + n;
      d
    else
      var ds := ShowNat(n / 10) + d;
      assert ds[..|ds| - 1] == ShowNat(n / 10);
      ds
  }

  /** `i32`'s `Display`: an optional `-` and the decimal digits. */
  function Show(x: i32): (s: string)
    ensures s != [] && !IsWhitespace(s[0]) && !IsWhitespace(s[|s| - 1])
    ensures ',' !in s
  {
    if x < 0 then "-" + ShowNat(-(x as int)) else ShowNat(x as int)
  }

  /** Parsing reads back every printed value. */
  lemma ParseShow(x: i32)
    ensures ParseI32(Show(x)) == Some(x)
  {
    var s := Show(x);
    if x < 0 {
      assert s[1..] == ShowNat(-(x as int));
    }
  }

  /** The error cases of `i32::from_str` the decoder meets. */
  lemma ParseRejects()
    ensures ParseI32("") == None && ParseI32("-") == None && ParseI32("null") == None
    ensures ParseI32("1 ") == None && ParseI32("+7") == Some(7)
  {
    assert !IsDigit("null"[0]);
    assert !IsDigit("1 "[1]);
    assert "+7"[1..] == "7";
    assert DigitsValue("7") == DigitsValue("7"[..0]) * 10 + 7;
  }

  // ---------------------------------------------------------------------
  // `from_vec_str`

  /** One trimmed token: `null` is an absent entry, an `i32` literal a
      present one, and anything else makes the whole text invalid. */
  function ParseToken(e: string): (r: Option<Option<i32>>)
    ensures r == Some(None) <==> Trim(e) == "null"
    ensures r.Some? <==> Trim(e) == "null" || ParseI32(Trim(e)).Some?
    ensures r.Some? && r.value.Some? ==> ParseI32(Trim(e)) == r.value
    ensures Trim(e) == [] ==> r.None?
  {
    var t := Trim(e);
    if t == "null" then Some(None)
    else
      match ParseI32(t)
      case None => None
      case Some(v) => Some(Some(v))
  }

  /** The parsed tokens, or `None` as soon as one is invalid. */
  function Collect<T>(rs: seq<Option<T>>): (r: Option<seq<T>>)
    ensures r.Some? ==> |r.value| == |rs| && forall i :: 0 <= i < |rs| ==> rs[i] == Some(r.value[i])
    ensures r.None? <==> exists i :: 0 <= i < |rs| && rs[i].None?
  {
    if rs == [] then Some([])
    else
      var init := rs[..|rs| - 1];
      match Collect(init)
      case None =>
        var i :| 0 <= i < |init| && init[i].None?;
        assert rs[i] == init[i];
        None
      case Some(es) =>
        match rs[|rs| - 1]
        case None => None
        case Some(e) =>
          assert forall i :: 0 <= i < |init| ==> rs[i] == init[i];
          Some(es + [e])
  }

  /** Results that are all present collect to the sequence of their values. */
  lemma {:induction false} CollectAll<T>(rs: seq<Option<T>>, es: seq<T>)
    requires |rs| == |es| && forall i :: 0 <= i < |rs| ==> rs[i] == Some(es[i])
    ensures Collect(rs) == Some(es)
  {
    if rs != [] {
      CollectAll(rs[..|rs| - 1], es[..|es| - 1]);
      assert es[..|es| - 1] + [es[|es| - 1]] == es;
    }
  }

  /** The per-token results of the loop in `from_vec_str`. */
  function TokenResults(parts: seq<string>): (rs: seq<Option<Option<i32>>>)
    ensures |rs| == |parts|
  {
    seq(|parts|, i requires 0 <= i < |parts| => ParseToken(parts[i]))
  }

  /** The entries written in `s`, or `None` when `s` is not a bracketed,
      comma-separated list of valid tokens. */
  function ParseText(s: string): (r: Option<Entries>)
    ensures r.Some? ==> var t := Trim(s);
      2 <= |t| && t[0] == '[' && t[|t| - 1] == ']'
      && |r.value| == |Split(t[1..|t| - 1], ',')| >= 1
  {
    var t := Trim(s);
    if |t| < 2 || t[0] != '[' || t[|t| - 1] != ']' then None
    else Collect(TokenResults(Split(t[1..|t| - 1], ',')))
  }

  ghost predicate TextDecodable(s: string)
  {
    ParseText(s).Some? ==> LevelOrder.Decodable(ParseText(s).value)
  }

  /** What `from_vec_str` returns for `s`, as a tree value: `None` on
      invalid text, otherwise the level-order decoding of its entries. */
  ghost function TextTree(s: string): Tree
    requires TextDecodable(s)
  {
    match ParseText(s)
    case None => Nil
    case Some(es) => LevelOrder.Decode(es)
  }

  /** `TreeNode::from_vec_str`. The token loop returns early on the first
      invalid token; the decoding is `LevelOrder.FromVec`. */
  method FromVecStr(treeStr: string) returns (root: Tree)
    requires TextDecodable(treeStr)
    ensures root == TextTree(treeStr)
  {
    var t := Trim(treeStr);
    if |t| == 0 || t[0] != '[' {
      return Nil;
    }
    var body := t[1..];
    if |body| == 0 || body[|body| - 1] != ']' {
      return Nil;
    }
    body := body[..|body| - 1];
    assert body == t[1..|t| - 1];
    var tree := ParseElements(body);
    match tree
    case None =>
      return Nil;
    case Some(es) =>
      root := LevelOrder.FromVec(es);
  }

  /** The token loop of `from_vec_str` over the text between the brackets:
      one entry per comma-separated token, stopping at the first invalid one. */
  method ParseElements(body: string) returns (tree: Option<Entries>)
    ensures tree == Collect(TokenResults(Split(body, ',')))
  {
    var elements := Split(body, ',');
    ghost var results := TokenResults(elements);
    var es: Entries := [];
    for k := 0 to |elements|
      invariant Collect(results[..k]) == Some(es)
    {
      var e := Trim(elements[k]);
      assert results[k] == ParseToken(elements[k]);
      if e == "null" {
        CollectSnoc(results, k, es, None);
        es := es + [None];
      } else {
        var v := ParseI32(e);
        if v.None? {
          CollectFails(results, k);
          return None;
        }
        CollectSnoc(results, k, es, Some(v.value));
        es := es + [Some(v.value)];
      }
    }
    assert results[..|elements|] == results;
    return Some(es);
  }

  /** One more present result extends the collected prefix by its value. */
  lemma CollectSnoc<T>(rs: seq<Option<T>>, k: nat, es: seq<T>, e: T)
    requires k < |rs| && Collect(rs[..k]) == Some(es) && rs[k] == Some(e)
    ensures Collect(rs[..k + 1]) == Some(es + [e])
  {
    assert rs[..k + 1][..k] == rs[..k];
  }

  /** One absent result makes the whole collection fail. */
  lemma CollectFails<T>(rs: seq<Option<T>>, k: nat)
    requires k < |rs| && rs[k].None?
    ensures Collect(rs) == None
  {
  }

  // ---------------------------------------------------------------------
  // The text form, printed

  /** The token for one entry. */
  function ShowEntry(e: Option<i32>): (t: string)
    ensures t != [] && !IsWhitespace(t[0]) && !IsWhitespace(t[|t| - 1]) && ',' !in t
  {
    match e
    case None => "null"
    case Some(v) => Show(v)
  }

  /** The tokens of `es`, every one after the first preceded by `pad`. */
  function Tokens(es: Entries, pad: string): seq<string>
  {
    seq(|es|, i requires 0 <= i < |es| => if i == 0 then ShowEntry(es[i]) else pad + ShowEntry(es[i]))
  }

  /** `es` written as the decoder reads it, with `pad` after each comma:
      `[1,null,3]` for `pad == ""`, `[1, null, 3]` for `pad == " "`. */
  function FormatEntries(es: Entries, pad: string): string
    requires |es| >= 1
  {
    "[" + Join(Tokens(es, pad), ',') + "]"
  }

  /** Every written non-empty entry sequence is read back as itself. */
  lemma ParseFormat(es: Entries, pad: string)
    requires |es| >= 1 && forall i :: 0 <= i < |pad| ==> IsWhitespace(pad[i])
    ensures ParseText(FormatEntries(es, pad)) == Some(es)
  {
    var parts := Tokens(es, pad);
    var text := FormatEntries(es, pad);
    forall i | 0 <= i < |parts|
      ensures ',' !in parts[i]
    {
      TokenParses(es, pad, i);
    }
    TrimKeeps(text);
    assert text[1..|text| - 1] == Join(parts, ',');
    SplitJoin(parts, ',');
    forall i | 0 <= i < |parts|
      ensures TokenResults(parts)[i] == Some(es[i])
    {
      TokenParses(es, pad, i);
    }
    CollectAll(TokenResults(parts), es);
  }

  /** Each written token holds no comma and is read back as its entry. */
  lemma TokenParses(es: Entries, pad: string, i: nat)
    requires i < |es| && forall i :: 0 <= i < |pad| ==> IsWhitespace(pad[i])
    ensures ',' !in Tokens(es, pad)[i] && ParseToken(Tokens(es, pad)[i]) == Some(es[i])
  {
    var t := ShowEntry(es[i]);
    if i == 0 {
      assert Tokens(es, pad)[i] == t;
      TrimKeeps(t);
    } else {
      TrimPadded(pad, t);
    }
    if es[i].Some? {
      ParseShow(es[i].value);
    }
  }

  /** A bracketed list with an empty token anywhere (`[]`, `[1,]`, `[,1]`,
      `[1,,2]`) is rejected: `parse` fails on the empty string. */
  lemma EmptyTokenRejected(s: string, parts: seq<string>, k: nat)
    requires k < |parts| && parts[k] == []
    requires forall i :: 0 <= i < |parts| ==> ',' !in parts[i]
    requires s == "[" + Join(parts, ',') + "]"
    ensures ParseText(s) == None
  {
    TrimKeeps(s);
    assert s[1..|s| - 1] == Join(parts, ',');
    SplitJoin(parts, ',');
    assert TokenResults(parts)[k] == ParseToken([]);
    CollectFails(TokenResults(parts), k);
  }

  /** The empty list `[]` is rejected: its one token is empty. */
  lemma EmptyListRejected(s: string)
    requires s == "[]"
    ensures ParseText(s) == None
  {
    EmptyTokenRejected(s, [[]], 0);
  }

  /** A trailing comma leaves an empty last token, which is rejected. */
  lemma TrailingCommaRejected(s: string)
    requires s == "[1,]"
    ensures ParseText(s) == None
  {
    var parts := ["1", []];
    assert Join(parts, ',') == "1" + [','] + Join(parts[1..], ',');
    EmptyTokenRejected(s, parts, 1);
  }

  /** Text whose first or last non-blank character is not the matching
      bracket is rejected, whatever blanks surround it. */
  lemma UnbracketedRejected(pre: string, t: string, post: string)
    requires forall i :: 0 <= i < |pre| ==> IsWhitespace(pre[i])
    requires forall i :: 0 <= i < |post| ==> IsWhitespace(post[i])
    requires t != [] && !IsWhitespace(t[0]) && !IsWhitespace(t[|t| - 1])
    requires t[0] != '[' || t[|t| - 1] != ']'
    ensures ParseText(pre + t + post) == None
  {
    TrimSurrounded(pre, t, post);
  }

  /** Text made only of whitespace, the empty string included, is rejected. */
  lemma BlankRejected(s: string)
    requires forall i :: 0 <= i < |s| ==> IsWhitespace(s[i])
    ensures ParseText(s) == None
  {
    TrimBlank(s);
  }
}
