/** Edits of a kernel command line (KernelCmdline in vmparam.py). */
module Cmdline {
  import opened Sequences

  // ---- Python string operations ----

  /** The characters removed by str.strip(). */
  predicate IsSpace(c: char) { SpaceCode(c as int) }

  /** The white space of str.strip(), one by one. */
  const SPACES: seq<int> :=
    [0x09, 0x0a, 0x0b, 0x0c, 0x0d, 0x1c, 0x1d, 0x1e, 0x1f, 0x20, 0x85, 0xa0, 0x1680, 0x2000, 0x2001, 0x2002, 0x2003,
     0x2004, 0x2005, 0x2006, 0x2007, 0x2008, 0x2009, 0x200a, 0x2028, 0x2029, 0x202f, 0x205f, 0x3000]

  lemma SpacesAre(c: char)
    ensures IsSpace(c) <==> c as int in SPACES
  {
    if IsSpace(c) { SpaceIsListed(c as int); }
    if c as int in SPACES {
      var i :| 0 <= i < |SPACES| && SPACES[i] == c as int;
      ListedIsSpace(i);
    }
  }

  predicate SpaceCode(n: int) {
    0x09 <= n <= 0x0d || 0x1c <= n <= 0x20 || n == 0x85 || n == 0xa0 || n == 0x1680 || 0x2000 <= n <= 0x200a
    || n == 0x2028 || n == 0x2029 || n == 0x202f || n == 0x205f || n == 0x3000
  }

  lemma SpaceIsListed(n: int)
    requires SpaceCode(n)
    ensures n in SPACES
  {
    if 0x09 <= n <= 0x0d { assert SPACES[n - 0x09] == n; }
    else if 0x1c <= n <= 0x20 { assert SPACES[n - 0x1c + 5] == n; }
    else if 0x2000 <= n <= 0x200a { assert SPACES[n - 0x2000 + 13] == n; }
    else if n < 0x2000 { assert n == SPACES[10] || n == SPACES[11] || n == SPACES[12]; }
    else { assert n == SPACES[24] || n == SPACES[25] || n == SPACES[26] || n == SPACES[27] || n == SPACES[28]; }
  }

  lemma ListedIsSpace(i: nat)
    requires i < |SPACES|
    ensures SpaceCode(SPACES[i])
  {
    if i < 10 {} else if i < 20 {} else {}
  }

  function StripLeft(s: string): (r: string)
    ensures r != [] ==> !IsSpace(r[0])
  {
    if s != [] && IsSpace(s[0]) then StripLeft(s[1..]) else s
  }

  function StripRight(s: string): (r: string)
    ensures r != [] ==> !IsSpace(r[|r| - 1])
  {
    if s != [] && IsSpace(s[|s| - 1]) then StripRight(s[..|s| - 1]) else s
  }

  /** s.strip() */
  function Strip(s: string): string { StripRight(StripLeft(s)) }

  /** s.split(sep) for a one-character separator: always at least one piece. */
  function Split(s: string, sep: char): (r: seq<string>)
    ensures r != []
  {
    if s == [] then [[]]
    else
      var rest := Split(s[1..], sep);
      if s[0] == sep then [[]] + rest
      else [[s[0]] + rest[0]] + rest[1..]
  }

  /** The items of a command line, empty ones included. */
  function Items(cmdline: string): seq<string> { Split(Strip(cmdline), ' ') }

  /** item.split('=')[0] */
  function KeyOf(item: string): string { Split(item, '=')[0] }

  // ---- fields ----

  /** field_keys */
  function FieldKeys(cmdline: string): (r: seq<string>)
    ensures |r| == |Items(cmdline)| && forall i :: 0 <= i < |r| ==> r[i] == KeyOf(Items(cmdline)[i])
  {
    var items := Items(cmdline);
    seq(|items|, i requires 0 <= i < |items| => KeyOf(items[i]))
  }

  /** is_field_key_exists */
  predicate KeyExists(cmdline: string, key: string) { Strip(key) in FieldKeys(cmdline) }

  /** The loop of remove_fields: every kept item behind a space. */
  function Kept(items: seq<string>, key: string): string {
    if items == [] then []
    else (if KeyOf(items[0]) != key then " " + items[0] else []) + Kept(items[1..], key)
  }

  /** remove_fields */
  function RemoveFields(cmdline: string, key: string): string { Kept(Items(cmdline), Strip(key)) }

  /** The loop of __iadd__: the whole value once for every item that is missing at its turn. */
  function AddItems(cmdline: string, items: seq<string>, value: string): string
    decreases |items|
  {
    if items == [] then cmdline
    else AddItems(if items[0] in Items(cmdline) then cmdline else cmdline + " " + value, items[1..], value)
  }

  /** __iadd__ */
  function Iadd(cmdline: string, value: string): string { AddItems(cmdline, Split(value, ' '), value) }

  // ---- splitting and joining ----

  /** Text without a separator in front of s joins its first piece. */
  lemma {:induction false} SplitPrefix(a: string, s: string, sep: char)
    requires sep !in a
    ensures Split(a + s, sep) == [a + Split(s, sep)[0]] + Split(s, sep)[1..]
  {
    var r := Split(s, sep);
    if a == [] {
      assert a + s == s && a + r[0] == r[0];
      assert [r[0]] + r[1..] == r;
    } else {
      SplitPrefix(a[1..], s, sep);
      var first := a[1..] + r[0];
      assert (a + s)[1..] == a[1..] + s;
      assert [a[0]] + first == a + r[0];
      assert ([first] + r[1..])[1..] == r[1..];
    }
  }

  lemma SplitNone(s: string, sep: char)
    requires sep !in s
    ensures Split(s, sep) == [s]
  {
    SplitPrefix(s, [], sep);
    assert s + [] == s;
  }

  lemma SplitHead(sep: char, b: string)
    ensures Split([sep] + b, sep) == [[]] + Split(b, sep)
  {
    assert ([sep] + b)[1..] == b;
  }

  /** Splitting at a separator that is really there. */
  lemma {:induction false} SplitAt(a: string, sep: char, b: string)
    ensures Split(a + [sep] + b, sep) == Split(a, sep) + Split(b, sep)
  {
    hide Split;
    var s := a + [sep] + b;
    if a == [] {
      assert Split(a, sep) == [[]] by { SplitNone(a, sep); }
      assert s == [sep] + b;
      SplitHead(sep, b);
    } else {
      var c, r := a[0], a[1..];
      SplitAt(r, sep, b);
      var t := r + [sep] + b;
      assert a == [c] + r && s == [c] + t;
      var ra, rb := Split(r, sep), Split(b, sep);
      if c == sep {
        SplitHead(sep, r);
        SplitHead(sep, t);
        Assoc([[]], ra, rb);
      } else {
        SplitPrefix([c], r, sep);
        SplitPrefix([c], t, sep);
        assert (ra + rb)[0] == ra[0] && (ra + rb)[1..] == ra[1..] + rb;
        Assoc([[c] + ra[0]], ra[1..], rb);
      }
    }
  }

  /** The key of a field is the text in front of its first equals sign, or the whole field. */
  lemma KeyOfField(key: string, value: string)
    requires '=' !in key
    ensures KeyOf(key) == key && KeyOf(key + "=" + value) == key
  {
    hide Split;
    SplitNone(key, '=');
    SplitAt(key, '=', value);
    assert key + "=" + value == key + ['='] + value;
  }

  // ---- strip ----

  predicate Trimmed(s: string) { s != [] ==> !IsSpace(s[0]) && !IsSpace(s[|s| - 1]) }

  lemma {:induction false} StripLeftAppend(a: string, b: string)
    ensures StripLeft(a) != [] ==> StripLeft(a + b) == StripLeft(a) + b
    ensures StripLeft(a) == [] ==> StripLeft(a + b) == StripLeft(b)
  {
    hide IsSpace;
    if a != [] && IsSpace(a[0]) {
      StripLeftAppend(a[1..], b);
      assert (a + b)[1..] == a[1..] + b;
    } else if a == [] {
      assert a + b == b;
    }
  }

  lemma StripRightTrimmed(a: string, b: string)
    requires b != [] && !IsSpace(b[|b| - 1])
    ensures StripRight(a + b) == a + b
  {
  }

  lemma OneSpace()
    ensures StripLeft(" ") == [] && IsSpace(' ')
  {
    assert " "[1..] == [];
  }

  lemma StripTrimmed(value: string)
    requires Trimmed(value)
    ensures StripLeft(value) == value && StripRight(value) == value
  {
  }

  /** Appending a trimmed value behind a space adds exactly its items. */
  lemma ItemsAppend(cmdline: string, value: string)
    requires Trimmed(value) && value != []
    ensures Items(cmdline + " " + value)
         == if StripLeft(cmdline) == [] then Split(value, ' ') else Split(StripLeft(cmdline), ' ') + Split(value, ' ')
  {
    OneSpace();
    hide IsSpace, Split, StripRight, StripLeft;
    var c := StripLeft(cmdline);
    StripLeftAppend(cmdline, " " + value);
    assert cmdline + " " + value == cmdline + (" " + value);
    if c == [] {
      StripLeftAppend(" ", value);
      StripTrimmed(value);
    } else {
      assert c + (" " + value) == c + [' '] + value;
      StripRightTrimmed(c + [' '], value);
      SplitAt(c, ' ', value);
    }
  }

  predicate Has(cmdline: string, items: seq<string>) { forall i :: 0 <= i < |items| ==> items[i] in Items(cmdline) }

  lemma {:induction false} NothingMissing(cmdline: string, items: seq<string>, value: string)
    requires Has(cmdline, items)
    ensures AddItems(cmdline, items, value) == cmdline
  {
    if items != [] {
      hide Items;
      assert items[0] in Items(cmdline);
      assert Has(cmdline, items[1..]) by {
        assert forall i :: 0 <= i < |items| - 1 ==> items[1..][i] == items[i + 1];
      }
      NothingMissing(cmdline, items[1..], value);
    }
  }

  lemma AppendedHas(cmdline: string, value: string)
    requires Trimmed(value) && value != []
    ensures Has(cmdline + " " + value, Split(value, ' '))
  {
    hide Items, Split;
    ItemsAppend(cmdline, value);
  }

  /** The loop appends the value at most once: never if all items are there, once otherwise. */
  lemma {:induction false} AddedOnce(cmdline: string, items: seq<string>, value: string)
    requires Trimmed(value) && value != []
    requires forall i :: 0 <= i < |items| ==> items[i] in Split(value, ' ')
    ensures AddItems(cmdline, items, value) == if Has(cmdline, items) then cmdline else cmdline + " " + value
    decreases |items|
  {
    hide Items, Split;
    if items != [] {
      var rest := items[1..];
      assert forall i :: 0 <= i < |rest| ==> rest[i] == items[i + 1];
      if items[0] in Items(cmdline) {
        AddedOnce(cmdline, rest, value);
        assert Has(cmdline, items) <==> Has(cmdline, rest) by {
          assert forall i :: 1 <= i < |items| ==> items[i] == rest[i - 1];
        }
      } else {
        AppendedHas(cmdline, value);
        NothingMissing(cmdline + " " + value, rest, value);
      }
    }
  }

  /** += with a trimmed nonempty value: all its items are present afterwards, the text is unchanged if
      they already were, is extended once otherwise, and a second += changes nothing. */
  lemma IaddAddsOnce(cmdline: string, value: string)
    requires Trimmed(value) && value != []
    ensures Has(Iadd(cmdline, value), Split(value, ' '))
    ensures Iadd(cmdline, value) == if Has(cmdline, Split(value, ' ')) then cmdline else cmdline + " " + value
    ensures Iadd(Iadd(cmdline, value), value) == Iadd(cmdline, value)
  {
    hide Items, Split, AddItems;
    var items := Split(value, ' ');
    AddedOnce(cmdline, items, value);
    AppendedHas(cmdline, value);
    NothingMissing(Iadd(cmdline, value), items, value);
  }

  /** The empty value is the exception: += "" is idempotent only where an empty item is already there. */
  lemma IaddEmpty(cmdline: string)
    ensures Iadd(cmdline, "") == if "" in Items(cmdline) then cmdline else cmdline + " "
    ensures Iadd(Iadd(cmdline, ""), "") == Iadd(cmdline, "") <==> "" in Items(cmdline)
  {
    IaddEmptyOnce(cmdline);
    IaddEmptyOnce(cmdline + " ");
    TrailingSpace(cmdline);
    hide Items, Iadd;
  }

  lemma IaddEmptyOnce(cmdline: string)
    ensures Iadd(cmdline, "") == if "" in Items(cmdline) then cmdline else cmdline + " "
  {
    hide Items;
    assert Split("", ' ') == [""];
    assert [""][1..] == [];
    assert cmdline + " " + "" == cmdline + " ";
    assert forall c: string :: AddItems(c, [], "") == c;
  }

  lemma StripRightSpace(s: string)
    ensures StripRight(s + " ") == StripRight(s)
  {
    assert (s + " ")[..|s|] == s;
  }

  lemma TrailingSpace(cmdline: string)
    ensures Items(cmdline + " ") == Items(cmdline)
  {
    OneSpace();
    hide IsSpace, Split, StripLeft;
    StripLeftAppend(cmdline, " ");
    StripRightSpace(StripLeft(cmdline));
  }

  // ---- removal ----

  /** The only white space is the space character. */
  predicate SpaceOnly(s: string) { forall i :: 0 <= i < |s| && IsSpace(s[i]) ==> s[i] == ' ' }

  function NonEmpty(items: seq<string>): seq<string> {
    if items == [] then [] else (if items[0] != [] then [items[0]] else []) + NonEmpty(items[1..])
  }

  /** The items whose key differs, in order. */
  function Others(items: seq<string>, key: string): seq<string> {
    if items == [] then [] else (if KeyOf(items[0]) != key then [items[0]] else []) + Others(items[1..], key)
  }

  lemma {:induction false} NonEmptyConcat(a: seq<string>, b: seq<string>)
    ensures NonEmpty(a + b) == NonEmpty(a) + NonEmpty(b)
  {
    if a == [] {
      assert a + b == b;
    } else {
      NonEmptyConcat(a[1..], b);
      assert (a + b)[1..] == a[1..] + b;
      Assoc(if a[0] != [] then [a[0]] else [], NonEmpty(a[1..]), NonEmpty(b));
    }
  }

  lemma EmptyItem()
    ensures NonEmpty([""]) == []
  {
    assert [""][1..] == [];
  }

  // ---- what stripping does to the items ----

  function Tokens(s: string): seq<string> { NonEmpty(Split(s, ' ')) }

  /** Stripping a list of tokens at its start: tokens of white space go, the first other one is stripped. */
  function StripHead(e: seq<string>): (r: seq<string>)
    ensures |r| <= |e|
    ensures e != [] && |r| == |e| ==> r == [StripLeft(e[0])] + e[1..]
    ensures forall i :: 1 <= i < |r| ==> r[i] in e
  {
    if e == [] then []
    else if StripLeft(e[0]) == [] then StripHead(e[1..])
    else [StripLeft(e[0])] + e[1..]
  }

  /** The same at its end. */
  function StripEnd(e: seq<string>): (r: seq<string>)
    ensures |r| <= |e|
    ensures e != [] && |r| == |e| ==> r == e[..|e| - 1] + [StripRight(e[|e| - 1])]
    ensures forall i :: 0 <= i < |r| - 1 ==> r[i] == e[i]
  {
    if e == [] then []
    else
      var n := |e| - 1;
      if StripRight(e[n]) == [] then StripEnd(e[..n]) else e[..n] + [StripRight(e[n])]
  }

  function StripList(e: seq<string>): seq<string> { StripEnd(StripHead(e)) }

  lemma TokensSpace(s: string)
    ensures Tokens([' '] + s) == Tokens(s) && Tokens(s + [' ']) == Tokens(s)
  {
    hide NonEmpty;
    SplitHead(' ', s);
    SplitAt(s, ' ', []);
    assert s + [' '] + [] == s + [' '];
    assert Split([], ' ') == [[]];
    hide Split;
    var p := Split(s, ' ');
    NonEmptyConcat([[]], p);
    NonEmptyConcat(p, [[]]);
    EmptyItem();
  }

  /** A character other than the separator in front of s joins its first piece. */
  lemma TokensCons(c: char, s: string)
    requires c != ' '
    ensures var p := Split(s, ' ');
      && Tokens([c] + s) == [[c] + p[0]] + NonEmpty(p[1..])
      && Tokens(s) == (if p[0] == [] then [] else [p[0]]) + NonEmpty(p[1..])
  {
    SplitPrefix([c], s, ' ');
    var p := Split(s, ' ');
    assert ([[c] + p[0]] + p[1..])[1..] == p[1..];
  }

  lemma {:induction false} StripLeftTokens(s: string)
    ensures Tokens(StripLeft(s)) == StripHead(Tokens(s))
  {
    hide IsSpace;
    if s == [] {
      EmptyItem();
    } else {
      var c, t := s[0], s[1..];
      assert s == [c] + t;
      if c == ' ' {
        OneSpace();
        StripLeftTokens(t);
        TokensSpace(t);
      } else {
        hide Split;
        TokensCons(c, t);
        var p := Split(t, ' ');
        assert ([c] + p[0])[1..] == p[0];
        var e := Tokens(s);
        assert e[0] == [c] + p[0] && e[1..] == NonEmpty(p[1..]);
        if IsSpace(c) {
          StripLeftTokens(t);
          assert StripLeft(e[0]) == StripLeft(p[0]);
          assert [] + NonEmpty(p[1..]) == NonEmpty(p[1..]);
        }
      }
    }
  }

  /** A character other than the separator behind s joins its last piece. */
  lemma {:induction false} SplitSnoc(s: string, c: char, sep: char)
    requires c != sep
    ensures var p := Split(s, sep); Split(s + [c], sep) == p[..|p| - 1] + [p[|p| - 1] + [c]]
  {
    if s == [] {
      assert s + [c] == [c];
      SplitNone([c], sep);
      assert [[]][..0] + [[] + [c]] == [[c]];
    } else {
      var d, r := s[0], s[1..];
      assert s == [d] + r && s + [c] == [d] + (r + [c]);
      SplitSnoc(r, c, sep);
      if d == sep {
        SplitHead(sep, r);
        SplitHead(sep, r + [c]);
      } else {
        SplitPrefix([d], r, sep);
        SplitPrefix([d], r + [c], sep);
      }
      hide Split;
      var p := Split(r, sep);
      var n := |p| - 1;
      if d != sep && n > 0 {
        assert (p[..n] + [p[n] + [c]])[1..] == p[1..n] + [p[n] + [c]];
      } else if d != sep {
        assert [d] + (p[0] + [c]) == [d] + p[0] + [c];
      }
    }
  }

  lemma TokensSnoc(s: string, c: char)
    requires c != ' '
    ensures var p := Split(s, ' '); var n := |p| - 1;
      && Tokens(s + [c]) == NonEmpty(p[..n]) + [p[n] + [c]]
      && Tokens(s) == NonEmpty(p[..n]) + (if p[n] == [] then [] else [p[n]])
  {
    SplitSnoc(s, c, ' ');
    hide Split;
    var p := Split(s, ' ');
    var n := |p| - 1;
    assert p == p[..n] + [p[n]];
    NonEmptyConcat(p[..n], [p[n]]);
    NonEmptyConcat(p[..n], [p[n] + [c]]);
    NonEmptyOne(p[n]);
    NonEmptyOne(p[n] + [c]);
  }

  lemma NonEmptyOne(x: string)
    ensures NonEmpty([x]) == if x == [] then [] else [x]
  {
    assert [x][1..] == [];
  }

  lemma {:induction false} StripRightTokens(s: string)
    ensures Tokens(StripRight(s)) == StripEnd(Tokens(s))
  {
    hide IsSpace;
    if s == [] {
      EmptyItem();
    } else {
      var t, c := s[..|s| - 1], s[|s| - 1];
      assert s == t + [c];
      if c == ' ' {
        OneSpace();
        StripRightTokens(t);
        TokensSpace(t);
      } else {
        hide Split;
        TokensSnoc(t, c);
        var p := Split(t, ' ');
        var last := p[|p| - 1];
        assert (last + [c])[..|last|] == last;
        var e := Tokens(s);
        assert e[|e| - 1] == last + [c] && e[..|e| - 1] == NonEmpty(p[..|p| - 1]);
        if IsSpace(c) {
          StripRightTokens(t);
          assert StripRight(e[|e| - 1]) == StripRight(last);
          assert e[..|e| - 1] + [] == e[..|e| - 1];
        }
      }
    }
  }

  /** Stripping text strips the list of its tokens. */
  lemma StripTokens(s: string)
    ensures NonEmpty(Items(s)) == StripList(Tokens(s))
  {
    hide IsSpace, StripLeft, StripRight, Split;
    StripLeftTokens(s);
    StripRightTokens(StripLeft(s));
  }

  /** No token, or a first token that does not start with white space. */
  predicate CleanHead(e: seq<string>) { e == [] || e[0] == [] || !IsSpace(e[0][0]) }

  /** No token, or a last token that does not end with white space. */
  predicate CleanLast(e: seq<string>) {
    e == [] || var x := e[|e| - 1]; x == [] || !IsSpace(x[|x| - 1])
  }

  predicate CleanEnds(e: seq<string>) { CleanHead(e) && CleanLast(e) }

  lemma {:induction false} StripLeftShrinks(s: string)
    ensures |StripLeft(s)| <= |s| && (StripLeft(s) == s <==> |StripLeft(s)| == |s|)
    ensures StripLeft(s) == s <==> s == [] || !IsSpace(s[0])
  {
    hide IsSpace;
    if s != [] && IsSpace(s[0]) { StripLeftShrinks(s[1..]); }
  }

  lemma {:induction false} StripRightShrinks(s: string)
    ensures |StripRight(s)| <= |s| && (StripRight(s) == s <==> |StripRight(s)| == |s|)
    ensures StripRight(s) == s <==> s == [] || !IsSpace(s[|s| - 1])
  {
    hide IsSpace;
    if s != [] && IsSpace(s[|s| - 1]) { StripRightShrinks(s[..|s| - 1]); }
  }

  /** A list of nonempty tokens is left alone if and only if its outer ends are not white space. */
  lemma StripListFixed(e: seq<string>)
    requires forall i :: 0 <= i < |e| ==> e[i] != []
    ensures StripList(e) == e <==> CleanEnds(e)
  {
    hide IsSpace, StripLeft, StripRight;
    if e != [] {
      var n := |e| - 1;
      var h := StripHead(e);
      StripLeftShrinks(e[0]);
      StripRightShrinks(e[n]);
      if CleanHead(e) {
        assert [e[0]] + e[1..] == e && e[..n] + [e[n]] == e;
      } else if |StripList(e)| == |e| {
        assert h == [StripLeft(e[0])] + e[1..];
        StripRightShrinks(h[n]);
        assert StripList(e)[0] != e[0];
      }
    }
  }

  /** An item written behind a space in front of text that splits to an empty piece and more. */
  lemma SplitOneMore(item: string, tail: string, others: seq<string>)
    requires ' ' !in item && Split(tail, ' ') == [[]] + others
    ensures Split(" " + item + tail, ' ') == [[]] + ([item] + others)
  {
    hide Split;
    assert " " + item + tail == [' '] + (item + tail);
    SplitHead(' ', item + tail);
    SplitPrefix(item, tail, ' ');
    assert item + [] == item;
    assert ([[]] + others)[1..] == others;
  }

  /** Splitting what remove_fields wrote gives an empty piece and then the kept items. */
  lemma {:induction false} SplitKept(items: seq<string>, key: string)
    requires forall i :: 0 <= i < |items| ==> ' ' !in items[i]
    ensures Split(Kept(items, key), ' ') == [[]] + Others(items, key)
  {
    if items == [] {
      assert Split([], ' ') == [[]] + [];
    } else {
      hide KeyOf, Split;
      var rest := items[1..];
      SplitKept(rest, key);
      if KeyOf(items[0]) != key {
        SplitOneMore(items[0], Kept(rest, key), Others(rest, key));
      } else {
        assert [] + Kept(rest, key) == Kept(rest, key);
        assert [] + Others(rest, key) == Others(rest, key);
      }
    }
  }

  lemma {:induction false} SplitPieces(s: string, sep: char)
    ensures forall i :: 0 <= i < |Split(s, sep)| ==> sep !in Split(s, sep)[i]
    ensures forall i, c :: 0 <= i < |Split(s, sep)| && c in Split(s, sep)[i] ==> c in s
  {
    if s != [] {
      SplitPieces(s[1..], sep);
      var rest := Split(s[1..], sep);
      forall i | 0 <= i < |Split(s, sep)|
        ensures sep !in Split(s, sep)[i] && forall c :: c in Split(s, sep)[i] ==> c in s
      {
        if i > 0 {
          assert Split(s, sep)[i] == rest[if s[0] == sep then i - 1 else i];
        } else if s[0] != sep {
          assert Split(s, sep)[0] == [s[0]] + rest[0];
        }
        assert forall c :: c in s <==> c == s[0] || c in s[1..];
      }
    }
  }

  lemma {:induction false} StripCharsLeft(s: string)
    ensures forall c :: c in StripLeft(s) ==> c in s
  {
    hide IsSpace;
    if s != [] && IsSpace(s[0]) { StripCharsLeft(s[1..]); }
  }

  lemma {:induction false} StripCharsRight(s: string)
    ensures forall c :: c in StripRight(s) ==> c in s
  {
    hide IsSpace;
    if s != [] && IsSpace(s[|s| - 1]) { StripCharsRight(s[..|s| - 1]); }
  }

  lemma {:induction false} OthersAmong(items: seq<string>, key: string)
    ensures forall x :: x in Others(items, key) ==> x in items
  {
    hide KeyOf;
    if items != [] {
      OthersAmong(items[1..], key);
      assert items == [items[0]] + items[1..];
    }
  }

  /** The nonempty items that remove_fields has to keep. */
  function Survivors(cmdline: string, key: string): seq<string> { NonEmpty(Others(Items(cmdline), Strip(key))) }

  /** What remove_fields leaves, for every line: the nonempty items whose key differs, in their order, with
      the white space at the two outer ends of the list stripped. */
  lemma RemoveStripsOthers(cmdline: string, key: string)
    ensures NonEmpty(Items(RemoveFields(cmdline, key))) == StripList(Survivors(cmdline, key))
  {
    hide IsSpace, Split, Kept, Strip, StripList;
    var items, k := Items(cmdline), Strip(key);
    SplitPieces(Strip(cmdline), ' ');
    StripTokens(RemoveFields(cmdline, key));
    SplitKept(items, k);
    NonEmptyConcat([[]], Others(items, k));
    EmptyItem();
    assert Tokens(RemoveFields(cmdline, key)) == NonEmpty(Others(items, k));
  }

  /** So exactly those items are left if and only if the first and the last of them do not start and end
      with white space other than the space. */
  lemma RemoveKeepsOthers(cmdline: string, key: string)
    ensures NonEmpty(Items(RemoveFields(cmdline, key))) == Survivors(cmdline, key)
       <==> CleanEnds(Survivors(cmdline, key))
  {
    hide Items, Strip, StripList, CleanEnds, RemoveFields;
    RemoveStripsOthers(cmdline, key);
    var e := Survivors(cmdline, key);
    forall i | 0 <= i < |e| ensures e[i] != [] {
      NonEmptyMembers(Others(Items(cmdline), Strip(key)), e[i]);
    }
    StripListFixed(e);
  }

  /** With space-only white space the condition always holds. */
  lemma SpaceOnlyIsClean(cmdline: string, key: string)
    requires SpaceOnly(cmdline)
    ensures CleanEnds(Survivors(cmdline, key))
  {
    hide IsSpace, Split, StripLeft, StripRight, KeyOf;
    var items, k := Items(cmdline), Strip(key);
    var e := Survivors(cmdline, key);
    StripCharsLeft(cmdline);
    StripCharsRight(StripLeft(cmdline));
    SplitPieces(Strip(cmdline), ' ');
    OthersAmong(items, k);
    forall x, c | x in e && c in x ensures !IsSpace(c) {
      NonEmptyMembers(Others(items, k), x);
      var i :| 0 <= i < |items| && items[i] == x;
      assert c in cmdline && c != ' ';
    }
    if e != [] {
      assert e[0] in e && e[|e| - 1] in e;
      assert forall x :: x in e && x != [] ==> x[0] in x && x[|x| - 1] in x;
    }
  }

  lemma {:induction false} OthersDiffer(items: seq<string>, key: string)
    ensures forall i :: 0 <= i < |Others(items, key)| ==> KeyOf(Others(items, key)[i]) != key
  {
    hide KeyOf;
    if items != [] { OthersDiffer(items[1..], key); }
  }

  lemma {:induction false} NonEmptyMembers(items: seq<string>, x: string)
    ensures x in NonEmpty(items) <==> x in items && x != []
  {
    if items != [] {
      NonEmptyMembers(items[1..], x);
      assert items == [items[0]] + items[1..];
    }
  }

  lemma SurvivorsDiffer(cmdline: string, key: string)
    ensures forall x :: x in Survivors(cmdline, key) ==> KeyOf(x) != Strip(key)
  {
    hide KeyOf, Items, Strip;
    var others := Others(Items(cmdline), Strip(key));
    OthersDiffer(Items(cmdline), Strip(key));
    forall x | x in Survivors(cmdline, key) ensures KeyOf(x) != Strip(key) {
      NonEmptyMembers(others, x);
    }
  }

  /** A nonempty key exists exactly when a nonempty item has it. */
  lemma KeyExistsIn(cmdline: string, key: string)
    requires Strip(key) != []
    ensures var e := NonEmpty(Items(cmdline));
      KeyExists(cmdline, key) <==> exists i :: 0 <= i < |e| && KeyOf(e[i]) == Strip(key)
  {
    assert KeyOf("") == "";
    hide Items, KeyOf, Strip;
    var items, e := Items(cmdline), NonEmpty(Items(cmdline));
    if i :| 0 <= i < |e| && KeyOf(e[i]) == Strip(key) {
      NonEmptyMembers(items, e[i]);
      var j :| 0 <= j < |items| && items[j] == e[i];
      assert FieldKeys(cmdline)[j] == Strip(key);
    }
    if KeyExists(cmdline, key) {
      var j :| 0 <= j < |items| && FieldKeys(cmdline)[j] == Strip(key);
      NonEmptyMembers(items, items[j]);
      assert items[j] in e;
    }
  }

  /** A nonempty key is gone afterwards if and only if neither the first nor the last of the items left has
      it: stripping can change the key of no other. */
  lemma RemovedKeyIsGone(cmdline: string, key: string)
    requires Strip(key) != []
    ensures var e := StripList(Survivors(cmdline, key));
      !KeyExists(RemoveFields(cmdline, key), key)
      <==> e == [] || (KeyOf(e[0]) != Strip(key) && KeyOf(e[|e| - 1]) != Strip(key))
  {
    hide Items, KeyOf, Strip, RemoveFields, Survivors, KeyExists;
    var e := StripList(Survivors(cmdline, key));
    RemoveStripsOthers(cmdline, key);
    KeyExistsIn(RemoveFields(cmdline, key), key);
    SurvivorsDiffer(cmdline, key);
    forall i | 0 < i < |e| - 1 ensures KeyOf(e[i]) != Strip(key) {
      assert e[i] == StripHead(Survivors(cmdline, key))[i];
    }
  }

  /** In particular with space-only white space. */
  lemma SpaceOnlyKeyIsGone(cmdline: string, key: string)
    requires SpaceOnly(cmdline) && Strip(key) != []
    ensures !KeyExists(RemoveFields(cmdline, key), key)
  {
    hide Items, KeyOf, Strip, RemoveFields, Survivors, KeyExists, CleanEnds, SpaceOnly;
    RemovedKeyIsGone(cmdline, key);
    SpaceOnlyIsClean(cmdline, key);
    RemoveKeepsOthers(cmdline, key);
    RemoveStripsOthers(cmdline, key);
    SurvivorsDiffer(cmdline, key);
  }

  /** Other white space defeats it: after removing "a" from "a <tab>a" the tab is stripped and
      the key is there again. */
  lemma TabDefeatsRemoval()
    ensures KeyExists(RemoveFields("a \ta", "a"), "a")
  {
    hide Split, StripLeft, StripRight;
    TabItems();
    SplitNone("a", '=');
    SplitNone("\ta", '=');
    TabStripped();
    SplitNone("a", ' ');
    var out := RemoveFields("a \ta", "a");
    assert ["a", "\ta"][1..] == ["\ta"] && ["\ta"][1..] == [];
    assert out == " \ta";
    assert FieldKeys(out)[0] == "a";
  }

  lemma TabItems()
    ensures Items("a \ta") == ["a", "\ta"]
  {
    var s := "a \ta";
    assert Strip(s) == s;
    hide Split;
    assert s == "a" + [' '] + "\ta";
    SplitAt("a", ' ', "\ta");
    SplitNone("a", ' ');
    SplitNone("\ta", ' ');
  }

  lemma TabStripped()
    ensures Strip("a") == "a" && Strip(" \ta") == "a"
  {
    assert " \ta"[1..] == "\ta" && "\ta"[1..] == "a";
  }

  // ---- the object ----

  class KernelCmdline {
    var cmdline: string

    constructor (default: string)
      ensures cmdline == default
    {
      cmdline := default;
    }

    /** __iadd__ */
    method Add(value: string)
      modifies this
      ensures cmdline == Iadd(old(cmdline), value)
    {
      hide Items, Split;
      var items := Split(value, ' ');
      var i := 0;
      assert items[0..] == items;
      while i < |items|
        invariant 0 <= i <= |items|
        invariant AddItems(cmdline, items[i..], value) == Iadd(old(cmdline), value)
      {
        assert items[i..][1..] == items[i + 1..];
        if items[i] !in Items(cmdline) {
          cmdline := cmdline + " " + value;
        }
        i := i + 1;
      }
    }

    /** remove_fields */
    method Remove(key: string)
      modifies this
      ensures cmdline == RemoveFields(old(cmdline), key)
    {
      hide Items, KeyOf, Strip;
      var items := Items(cmdline);
      var retval: string := "";
      var i := 0;
      assert items[0..] == items;
      while i < |items|
        invariant 0 <= i <= |items| && cmdline == old(cmdline)
        invariant retval + Kept(items[i..], Strip(key)) == Kept(items, Strip(key))
      {
        assert items[i..][1..] == items[i + 1..];
        if KeyOf(items[i]) != Strip(key) {
          retval := retval + (" " + items[i]);
        }
        i := i + 1;
      }
      cmdline := retval;
    }
  }
}
