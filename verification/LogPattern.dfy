/** Cutting a log pattern into literal text and `%name{option}` items. */
module LogPattern {
  import opened Basics

  datatype Token = Literal(text: string) | Item(name: string, option: string)

  const PATTERN_ERROR := Literal("<<pattern_error>>")

  predicate IsAlpha(c: char) {
    'a' <= c <= 'z' || 'A' <= c <= 'Z'
  }

  // ---------- the tokens of a pattern ----------

  /** Where the name that starts at `n` ends: at a `{`, at a character that is neither a letter nor `}`, or at the end. */
  function NameEnd(p: string, n: nat): (m: nat)
    requires n <= |p|
    ensures n <= m <= |p|
    decreases |p| - n
  {
    if n == |p| || p[n] == '{' || (!IsAlpha(p[n]) && p[n] != '}') then n else NameEnd(p, n + 1)
  }

  /** The first `}` from `n` on, or the end. */
  function CloseAt(p: string, n: nat): (c: nat)
    requires n <= |p|
    ensures n <= c <= |p|
    ensures c < |p| ==> p[c] == '}'
    ensures forall k | n <= k < c :: p[k] != '}'
    decreases |p| - n
  {
    if n == |p| || p[n] == '}' then n else CloseAt(p, n + 1)
  }

  /** A letter, in either case. */
  ghost predicate IsLetter(c: char) {
    ('a' <= c && c <= 'z') || ('A' <= c && c <= 'Z')
  }

  /** Any character that a name cannot run on with and an option cannot open with. */
  ghost predicate EndsName(c: char) {
    !IsLetter(c) && c != '{' && c != '}'
  }

  lemma LetterIsAlpha(c: char)
    ensures IsLetter(c) <==> IsAlpha(c)
  {
  }

  /** A name takes in letters and closing braces only, and stops at the first character that is neither. */
  lemma {:induction false} NameEndMeans(p: string, n: nat)
    requires n <= |p|
    ensures var m := NameEnd(p, n);
            && (forall k | n <= k < m :: IsLetter(p[k]) || p[k] == '}')
            && (m < |p| ==> p[m] == '{' || EndsName(p[m]))
    decreases |p| - n
  {
    hide IsLetter, IsAlpha;
    if n < |p| {
      LetterIsAlpha(p[n]);
      NameEndMeans(p, n + 1);
    }
  }

  predicate OpensOption(p: string, m: nat) {
    m < |p| && p[m] == '{'
  }

  function Flush(text: string): seq<Token> {
    if text == "" then [] else [Literal(text)]
  }

  /** The tokens from position `i` on, with `text` the literal gathered so far. A doubled `%` adds one `%` to the literal
      and the second is looked at again; an option that is never closed leaves an error token and goes on behind the `%`. */
  function Tokens(p: string, i: nat, text: string): seq<Token>
    requires i <= |p|
    decreases |p| - i
  {
    if i == |p| then Flush(text)
    else if p[i] != '%' then Tokens(p, i + 1, text + [p[i]])
    else if i + 1 < |p| && p[i + 1] == '%' then Tokens(p, i + 1, text + "%")
    else
      var m := NameEnd(p, i + 1);
      if !OpensOption(p, m) then Flush(text) + [Item(p[i + 1..m], "")] + Tokens(p, m, "")
      else
        var c := CloseAt(p, m + 1);
        if c < |p| then Flush(text) + [Item(p[i + 1..m], p[m + 1..c])] + Tokens(p, c + 1, "")
        else [PATTERN_ERROR] + Tokens(p, i + 1, text)
  }

  /** Some item from `i` on opens an option that is never closed. */
  predicate HasError(p: string, i: nat)
    requires i <= |p|
    decreases |p| - i
  {
    if i == |p| then false
    else if p[i] != '%' || (i + 1 < |p| && p[i + 1] == '%') then HasError(p, i + 1)
    else
      var m := NameEnd(p, i + 1);
      if !OpensOption(p, m) then HasError(p, m)
      else var c := CloseAt(p, m + 1); c == |p| || HasError(p, c + 1)
  }

  /** How many items from `i` on carry an empty option `{}`. */
  function EmptyOptions(p: string, i: nat): nat
    requires i <= |p|
    decreases |p| - i
  {
    if i == |p| then 0
    else if p[i] != '%' || (i + 1 < |p| && p[i + 1] == '%') then EmptyOptions(p, i + 1)
    else
      var m := NameEnd(p, i + 1);
      if !OpensOption(p, m) then EmptyOptions(p, m)
      else
        var c := CloseAt(p, m + 1);
        if c == |p| then EmptyOptions(p, i + 1)
        else (if c == m + 1 then 1 else 0) + EmptyOptions(p, c + 1)
  }

  /** How many items from `i` on open an option that is never closed. */
  function Errors(p: string, i: nat): (n: nat)
    requires i <= |p|
    ensures n == 0 <==> !HasError(p, i)
    decreases |p| - i
  {
    if i == |p| then 0
    else if p[i] != '%' || (i + 1 < |p| && p[i + 1] == '%') then Errors(p, i + 1)
    else
      var m := NameEnd(p, i + 1);
      if !OpensOption(p, m) then Errors(p, m)
      else
        var c := CloseAt(p, m + 1);
        if c == |p| then 1 + Errors(p, i + 1) else Errors(p, c + 1)
  }

  // ---------- the scan as it runs ----------

  /** The inner scan behind a `%` at `i`: the name, the option, where it stops, and whether an option stays open. */
  method ScanItem(p: string, i: nat) returns (str: string, fmt: string, n: nat, open: bool)
    requires i < |p|
    ensures var m := NameEnd(p, i + 1);
            if !OpensOption(p, m) then
              !open && n == m && str == p[i + 1..m] && fmt == ""
            else
              var c := CloseAt(p, m + 1);
              && open == (c == |p|)
              && (!open ==> n == c + 1 && str == p[i + 1..m] && fmt == p[m + 1..c])
    ensures if open then exists m :: StaysOpen(p, i, m) else IsScanned(p, i, str, fmt, n)
  {
    hide IsScanned, StaysOpen;
    str, fmt, n, open := "", "", i + 1, false;
    var begin: nat := 0;
    ghost var end := NameEnd(p, i + 1);
    while n < |p|
      invariant i < n <= |p|
      invariant fmt == ""
      invariant !open ==> NameEnd(p, n) == end && str == if n == |p| then p[i + 1..] else ""
      invariant open ==> OpensOption(p, end) && begin == end < n && CloseAt(p, n) == CloseAt(p, end + 1)
      invariant open && n < |p| ==> str == p[i + 1..end]
      decreases |p| - n
    {
      if !open && !IsAlpha(p[n]) && p[n] != '{' && p[n] != '}' {
        str := p[i + 1..n];
        break;
      }
      if !open {
        if p[n] == '{' {
          str := p[i + 1..n];
          open := true;
          begin := n;
          n := n + 1;
          continue;
        }
      } else if p[n] == '}' {
        fmt := p[begin + 1..n];
        open := false;
        n := n + 1;
        break;
      }
      n := n + 1;
      if n == |p| {
        if str == "" {
          str := p[i + 1..];
        }
      }
    }
    ScanMeans(p, i);
  }

  /** What a scan that ends well finds behind the `%` at `i`: a name of letters and closing braces, then an option up to the
      first closing brace, or none where the name ends. */
  ghost predicate IsScanned(p: string, i: nat, str: string, fmt: string, n: nat) {
    var m := i + 1 + |str|;
    && m <= n <= |p| && str == p[i + 1..m] && (forall k | i < k < m :: IsLetter(p[k]) || p[k] == '}')
    && if m < |p| && p[m] == '{' then
         m + 1 < n && p[n - 1] == '}' && fmt == p[m + 1..n - 1] && forall k | m < k < n - 1 :: p[k] != '}'
       else fmt == "" && n == m && (m < |p| ==> EndsName(p[m]))
  }

  /** The option opened at `m` is never closed. */
  ghost predicate StaysOpen(p: string, i: nat, m: nat) {
    && i < m < |p| && p[m] == '{' && (forall k | i < k < m :: IsLetter(p[k]) || p[k] == '}')
    && forall k | m < k < |p| :: p[k] != '}'
  }

  lemma ScanMeans(p: string, i: nat)
    requires i < |p|
    ensures var m := NameEnd(p, i + 1);
            if !OpensOption(p, m) then IsScanned(p, i, p[i + 1..m], "", m)
            else
              var c := CloseAt(p, m + 1);
              if c == |p| then StaysOpen(p, i, m) else IsScanned(p, i, p[i + 1..m], p[m + 1..c], c + 1)
  {
    hide IsLetter, EndsName, NameEnd, CloseAt;
    NameEndMeans(p, i + 1);
    BraceEndsNothing();
  }

  lemma BraceEndsNothing()
    ensures !EndsName('{')
  {
  }

  /** One step of the tokenizing loop, on the tokens still to come. */
  lemma TokensAt(p: string, i: nat, text: string)
    requires i < |p|
    ensures var m := NameEnd(p, i + 1);
            if p[i] != '%' then
              Tokens(p, i, text) == Tokens(p, i + 1, text + [p[i]]) && HasError(p, i) == HasError(p, i + 1)
            else if i + 1 < |p| && p[i + 1] == '%' then
              Tokens(p, i, text) == Tokens(p, i + 1, text + "%") && HasError(p, i) == HasError(p, i + 1)
            else if !OpensOption(p, m) then
              && Tokens(p, i, text) == Flush(text) + [Item(p[i + 1..m], "")] + Tokens(p, m, "")
              && HasError(p, i) == HasError(p, m)
            else
              var c := CloseAt(p, m + 1);
              if c < |p| then
                && Tokens(p, i, text) == Flush(text) + [Item(p[i + 1..m], p[m + 1..c])] + Tokens(p, c + 1, "")
                && HasError(p, i) == HasError(p, c + 1)
              else
                Tokens(p, i, text) == [PATTERN_ERROR] + Tokens(p, i + 1, text) && HasError(p, i)
  {
    hide NameEnd, CloseAt, OpensOption, Flush;
  }

  lemma TokensAtEnd(p: string, text: string)
    ensures Tokens(p, |p|, text) == Flush(text) && !HasError(p, |p|)
  {
  }

  /** The tokenizing loop. */
  method Init(p: string) returns (items: seq<Token>, error: bool)
    ensures items == Tokens(p, 0, "")
    ensures error == HasError(p, 0)
    ensures forall ts | CutsCleanly(ts, "") && p == Reprint(ts) :: items == ts && !error
    ensures forall ts, tail | CutsCleanly(ts, tail) && p == Reprint(ts) + tail :: ts <= items
  {
    hide Tokens, NameEnd, CloseAt, HasError, CutsCleanly, Reprint;
    items, error := [], false;
    var nstr := "";
    var i: nat := 0;
    while i < |p|
      invariant i <= |p|
      invariant items + Tokens(p, i, nstr) == Tokens(p, 0, "")
      invariant (error || HasError(p, i)) == HasError(p, 0)
      decreases |p| - i
    {
      TokensAt(p, i, nstr);
      ghost var before, text := items, nstr;
      if p[i] != '%' {
        nstr, i := nstr + [p[i]], i + 1;
        continue;
      }
      if i + 1 < |p| {
        if p[i + 1] == '%' {
          nstr, i := nstr + "%", i + 1;
          continue;
        }
      }
      var str, fmt, n, unclosed := ScanItem(p, i);
      if !unclosed {
        if nstr != "" {
          items, nstr := items + [Literal(nstr)], "";
        }
        items := items + [Item(str, fmt)];
        i := n;
        assert items == before + (Flush(text) + [Item(str, fmt)]);
        Assoc(before, Flush(text) + [Item(str, fmt)], Tokens(p, i, ""));
      } else {
        error := true;
        items := items + [PATTERN_ERROR];
        i := i + 1;
        Assoc(before, [PATTERN_ERROR], Tokens(p, i, nstr));
      }
    }
    TokensAtEnd(p, nstr);
    if nstr != "" {
      items := items + [Literal(nstr)];
    }
    CleanListsComeBack(p);
  }

  // ---------- printing the tokens back ----------

  function Print(t: Token): string {
    match t
    case Literal(text) => text
    case Item(name, option) => if option == "" then "%" + name else "%" + name + "{" + option + "}"
  }

  function Reprint(ts: seq<Token>): string {
    if ts == [] then "" else Print(ts[0]) + Reprint(ts[1..])
  }

  lemma {:induction false} ReprintConcat(ts: seq<Token>, us: seq<Token>)
    ensures Reprint(ts + us) == Reprint(ts) + Reprint(us)
  {
    if ts == [] {
      assert ts + us == us;
    } else {
      hide Print;
      ReprintConcat(ts[1..], us);
      ConcatHead(ts, us);
      Assoc(Print(ts[0]), Reprint(ts[1..]), Reprint(us));
    }
  }

  lemma ConcatHead<T>(a: seq<T>, b: seq<T>)
    requires a != []
    ensures (a + b)[0] == a[0] && (a + b)[1..] == a[1..] + b
  {
  }

  lemma ReprintPieces(text: string, t: Token, us: seq<Token>)
    ensures Reprint(Flush(text) + [t] + us) == text + Print(t) + Reprint(us)
  {
    hide Print, Flush;
    ReprintConcat(Flush(text) + [t], us);
    ReprintConcat(Flush(text), [t]);
    ReprintFlush(text);
    assert Reprint([t]) == Print(t) + Reprint([t][1..]);
  }

  /** Without an unclosed option nothing is lost but the braces of empty options: each costs two characters, and with
      none of them the tokens print back to the pattern. */
  lemma {:induction false} ReprintFrom(p: string, i: nat, text: string)
    requires i <= |p| && !HasError(p, i)
    ensures |Reprint(Tokens(p, i, text))| + 2 * EmptyOptions(p, i) == |text| + (|p| - i)
    ensures EmptyOptions(p, i) == 0 ==> Reprint(Tokens(p, i, text)) == text + p[i..]
    decreases |p| - i
  {
    hide Reprint, Print, NameEnd, Tokens;
    if i == |p| {
      TokensAtEnd(p, text);
      ReprintFlush(text);
    } else if p[i] != '%' || (i + 1 < |p| && p[i + 1] == '%') {
      TokensAt(p, i, text);
      ReprintFrom(p, i + 1, text + [p[i]]);
      OneMore(text, p, i);
    } else {
      var m := NameEnd(p, i + 1);
      TokensAt(p, i, text);
      if !OpensOption(p, m) {
        ReprintFrom(p, m, "");
        BehindItem(p, i, m, text, Tokens(p, m, ""));
      } else {
        var c := CloseAt(p, m + 1);
        ReprintFrom(p, c + 1, "");
        BehindOption(p, i, m, c, text, Item(p[i + 1..m], p[m + 1..c]), Tokens(p, c + 1, ""));
      }
    }
  }

  lemma BehindItem(p: string, i: nat, m: nat, text: string, us: seq<Token>)
    requires i < m <= |p| && p[i] == '%'
    ensures var r := Reprint(Flush(text) + [Item(p[i + 1..m], "")] + us);
            |r| == |text| + (m - i) + |Reprint(us)| && (Reprint(us) == "" + p[m..] ==> r == text + p[i..])
  {
    hide Print, Reprint;
    ReprintPieces(text, Item(p[i + 1..m], ""), us);
    PrintItem(p, i, m);
    assert "" + p[m..] == p[m..];
    Join(text, p, i, m);
  }

  lemma BehindOption(p: string, i: nat, m: nat, c: nat, text: string, t: Token, us: seq<Token>)
    requires i < m < c < |p| && p[i] == '%' && p[m] == '{' && p[c] == '}'
    requires t == Item(p[i + 1..m], p[m + 1..c])
    ensures var r := Reprint(Flush(text) + [t] + us);
            && |r| + (if c == m + 1 then 2 else 0) == |text| + (c + 1 - i) + |Reprint(us)|
            && (c != m + 1 && Reprint(us) == "" + p[c + 1..] ==> r == text + p[i..])
  {
    hide Print, Reprint, Flush;
    ReprintPieces(text, t, us);
    PrintOption(p, i, m, c);
    if c != m + 1 && Reprint(us) == "" + p[c + 1..] {
      assert "" + p[c + 1..] == p[c + 1..];
      Join(text, p, i, c + 1);
    }
  }

  lemma OneMore(text: string, p: string, i: nat)
    requires i < |p|
    ensures text + [p[i]] + p[i + 1..] == text + p[i..]
  {
  }

  lemma ReprintFlush(text: string)
    ensures Reprint(Flush(text)) == text
  {
  }

  lemma PrintItem(p: string, i: nat, m: nat)
    requires i < m <= |p| && p[i] == '%'
    ensures Print(Item(p[i + 1..m], "")) == p[i..m]
  {
  }

  lemma PrintOption(p: string, i: nat, m: nat, c: nat)
    requires i < m < c < |p| && p[i] == '%' && p[m] == '{' && p[c] == '}'
    ensures var t := Print(Item(p[i + 1..m], p[m + 1..c]));
            if c == m + 1 then |t| + 2 == c + 1 - i else t == p[i..c + 1]
  {
    var head, option := "%" + p[i + 1..m], p[m + 1..c];
    if c == m + 1 {
      assert option == "";
    } else {
      assert option != "" && head == p[i..m];
      SliceSnoc(p, i, m);
      SliceStep(p, i, m + 1, c);
      SliceSnoc(p, i, c);
      assert Print(Item(p[i + 1..m], option)) == head + "{" + option + "}";
    }
  }

  lemma SliceSnoc(p: string, i: nat, m: nat)
    requires i <= m < |p|
    ensures p[i..m] + [p[m]] == p[i..m + 1]
  {
  }

  lemma Join(text: string, p: string, i: nat, e: nat)
    requires i <= e <= |p|
    ensures text + p[i..e] + p[e..] == text + p[i..]
  {
  }

  // ---------- tokens printed and cut again ----------

  /** An item named by letters, whose option has no closing brace, and that does not run into what follows it. */
  ghost predicate StandsBefore(t: Token, follow: string)
    requires t.Item?
  {
    && t.name != "" && (forall k | 0 <= k < |t.name| :: IsLetter(t.name[k]))
    && '}' !in t.option
    && (t.option == "" && follow != "" ==> EndsName(follow[0]))
  }

  /** Such items, and literals without a percent sign, each before an item or at the very end; `tail` stands behind. */
  ghost predicate CutsCleanly(ts: seq<Token>, tail: string) {
    forall k | 0 <= k < |ts| ::
      match ts[k]
      case Literal(text) => text != "" && '%' !in text && if k + 1 < |ts| then ts[k + 1].Item? else tail == ""
      case Item(_, _) => StandsBefore(ts[k], Reprint(ts[k + 1..]) + tail)
  }

  lemma CutsRest(ts: seq<Token>, tail: string)
    requires ts != [] && CutsCleanly(ts, tail)
    ensures CutsCleanly(ts[1..], tail)
  {
    var us := ts[1..];
    forall k | 0 <= k < |us|
      ensures us[k + 1..] == ts[k + 2..] && us[k] == ts[k + 1]
    {
    }
  }

  /** Characters that are no percent sign join the literal. */
  lemma {:induction false} LiteralRun(p: string, i: nat, e: nat, text: string)
    requires i <= e <= |p| && '%' !in p[i..e]
    ensures Tokens(p, i, text) == Tokens(p, e, text + p[i..e]) && HasError(p, i) == HasError(p, e)
    decreases e - i
  {
    hide Tokens, HasError;
    if i == e {
      assert text + p[i..e] == text;
    } else {
      assert p[i] == p[i..e][0] && p[i..e][1..] == p[i + 1..e];
      TokensAt(p, i, text);
      LiteralRun(p, i + 1, e, text + [p[i]]);
      assert text + [p[i]] + p[i + 1..e] == text + p[i..e];
    }
  }

  lemma {:induction false} NameEndsAt(p: string, n: nat, m: nat)
    requires n <= m <= |p| && (forall k | n <= k < m :: IsLetter(p[k]))
    requires m < |p| ==> p[m] == '{' || EndsName(p[m])
    ensures NameEnd(p, n) == m
    decreases m - n
  {
    if n < m {
      NameEndsAt(p, n + 1, m);
    }
  }

  lemma {:induction false} ClosesAt(p: string, n: nat, c: nat)
    requires n <= c < |p| && p[c] == '}' && forall k | n <= k < c :: p[k] != '}'
    ensures CloseAt(p, n) == c
    decreases c - n
  {
    if n < c {
      ClosesAt(p, n + 1, c);
    }
  }

  /** An item is cut where it was printed. */
  lemma ItemComesBack(p: string, i: nat, t: Token, follow: string, text: string)
    requires i <= |p| && t.Item? && StandsBefore(t, follow) && p[i..] == Print(t) + follow
    ensures var e := i + |Print(t)|;
            && e <= |p| && p[e..] == follow
            && Tokens(p, i, text) == Flush(text) + [t] + Tokens(p, e, "") && HasError(p, i) == HasError(p, e)
  {
    hide Tokens, HasError, NameEnd, CloseAt, Flush, Print, StandsBefore, IsLetter, EndsName;
    var e, m := i + |Print(t)|, i + 1 + |t.name|;
    BraceEndsNothing();
    ItemPlace(p, i, t, follow);
    NameEndsAt(p, i + 1, m);
    if t.option != "" {
      ClosesAt(p, m + 1, e - 1);
    }
    TokensAt(p, i, text);
  }

  /** Where the parts of a printed item stand. */
  lemma ItemPlace(p: string, i: nat, t: Token, follow: string)
    requires i <= |p| && t.Item? && StandsBefore(t, follow) && p[i..] == Print(t) + follow
    ensures var e, m := i + |Print(t)|, i + 1 + |t.name|;
            && m <= e <= |p| && p[e..] == follow && i < |p| && p[i] == '%' && p[i + 1..m] == t.name
            && i + 1 < |p| && p[i + 1] != '%' && (forall k | i < k < m :: IsLetter(p[k]))
            && (if t.option == "" then e == m && (m < |p| ==> EndsName(p[m]))
                else e == m + 2 + |t.option| && p[m] == '{' && p[e - 1] == '}' && p[m + 1..e - 1] == t.option)
            && (t.option != "" ==> forall k | m < k < e - 1 :: p[k] != '}')
  {
    hide IsLetter, EndsName;
    var q, m := Print(t), 1 + |t.name|;
    PrintedParts(t);
    LetterIsNoPercent(t.name[0]);
    Slices(p, i, q, follow, 1, m);
    assert forall k | i < k < i + m :: p[k] == t.name[k - i - 1];
    if t.option != "" {
      Slices(p, i, q, follow, m + 1, |q| - 1);
      assert forall k | i + m < k < i + |q| - 1 :: p[k] == t.option[k - i - m - 1];
    }
  }

  lemma PrintedParts(t: Token)
    requires t.Item? && t.name != ""
    ensures var q, m := Print(t), 1 + |t.name|;
            && |q| == (if t.option == "" then m else m + 2 + |t.option|) && q[0] == '%' && q[1..m] == t.name
            && (t.option != "" ==> q[m] == '{' && q[|q| - 1] == '}' && q[m + 1..|q| - 1] == t.option)
  {
  }

  lemma LetterIsNoPercent(c: char)
    requires IsLetter(c)
    ensures c != '%'
  {
  }

  /** The piece from `a` to `b` of what stands at `i`. */
  lemma Slices(p: string, i: nat, q: string, follow: string, a: nat, b: nat)
    requires i <= |p| && p[i..] == q + follow && a <= b <= |q|
    ensures i + |q| <= |p| && p[i + a..i + b] == q[a..b] && p[i + |q|..] == follow
    ensures forall k | 0 <= k < |q| :: p[i + k] == q[k]
  {
    assert forall k | 0 <= k < |p| - i :: p[i + k] == p[i..][k];
  }

  /** A list that cuts cleanly comes back token by token, whatever else stands behind it. */
  lemma {:induction false} PrintedComesBack(p: string, i: nat, ts: seq<Token>, tail: string, text: string)
    requires i <= |p| && CutsCleanly(ts, tail) && p[i..] == Reprint(ts) + tail
    requires ts != [] && (text != "" ==> ts[0].Item?)
    ensures |tail| <= |p| && HasError(p, i) == HasError(p, |p| - |tail|)
    ensures Tokens(p, i, text) == if ts[|ts| - 1].Literal? then Flush(text) + ts
                                  else Flush(text) + ts + Tokens(p, |p| - |tail|, "")
    decreases |ts|
  {
    hide Print, Reprint, Tokens, HasError, StandsBefore, Flush;
    var t, us, follow := ts[0], ts[1..], Reprint(ts[1..]) + tail;
    assert ts == [t] + us;
    HeadFirst(ts, tail);
    CutsRest(ts, tail);
    if t.Item? {
      ItemComesBack(p, i, t, follow, text);
      var e := i + |Print(t)|;
      if us == [] {
        NoTail(p, e, tail);
      } else {
        PrintedComesBack(p, e, us, tail, "");
        ItemFirst(ts, us, text, Tokens(p, |p| - |tail|, ""));
      }
    } else {
      LiteralComesBack(p, i, t, follow);
      var e := i + |t.text|;
      if us == [] {
        TokensAtEnd(p, t.text);
        FlushAll(text, t);
      } else {
        PrintedComesBack(p, e, us, tail, t.text);
        LiteralFirst(ts, us, text, Tokens(p, |p| - |tail|, ""));
      }
    }
  }

  lemma HeadFirst(ts: seq<Token>, tail: string)
    requires ts != [] && CutsCleanly(ts, tail)
    ensures Reprint(ts) + tail == Print(ts[0]) + (Reprint(ts[1..]) + tail)
    ensures ts[0].Item? ==> StandsBefore(ts[0], Reprint(ts[1..]) + tail)
    ensures ts[0].Literal? ==> ts[0].text != "" && '%' !in ts[0].text
    ensures ts[0].Literal? ==> if ts[1..] == [] then Reprint(ts[1..]) + tail == "" else ts[1..][0].Item?
  {
    hide Print, StandsBefore;
    Assoc(Print(ts[0]), Reprint(ts[1..]), tail);
  }

  lemma NoTail(p: string, e: nat, tail: string)
    requires e <= |p| && p[e..] == Reprint([]) + tail
    ensures e == |p| - |tail|
  {
  }

  lemma FlushAll(text: string, t: Token)
    requires text == "" && t.Literal? && t.text != ""
    ensures Flush(t.text) == Flush(text) + [t]
  {
  }

  lemma ItemFirst(ts: seq<Token>, us: seq<Token>, text: string, rest: seq<Token>)
    requires ts != [] && us == ts[1..]
    ensures Flush(text) + [ts[0]] + (Flush("") + us) == Flush(text) + ts
    ensures Flush(text) + [ts[0]] + (Flush("") + us + rest) == Flush(text) + ts + rest
  {
    var h := Flush(text);
    assert ts == [ts[0]] + us && Flush("") + us == us;
    hide Flush;
    Assoc(h, [ts[0]], us);
    Assoc(h + [ts[0]], us, rest);
  }

  lemma LiteralFirst(ts: seq<Token>, us: seq<Token>, text: string, rest: seq<Token>)
    requires ts != [] && us == ts[1..] && us != [] && ts[0].Literal? && ts[0].text != "" && text == ""
    ensures Flush(ts[0].text) + us == Flush(text) + ts
    ensures Flush(ts[0].text) + us + rest == Flush(text) + ts + rest
  {
    assert ts == [ts[0]] + us;
  }

  lemma LiteralComesBack(p: string, i: nat, t: Token, follow: string)
    requires i <= |p| && t.Literal? && '%' !in t.text && p[i..] == Print(t) + follow
    ensures var e := i + |t.text|;
            && e <= |p| && p[e..] == follow
            && Tokens(p, i, "") == Tokens(p, e, t.text) && HasError(p, i) == HasError(p, e)
  {
    hide Tokens, HasError;
    var e := i + |t.text|;
    assert p[i..e] == p[i..][..|t.text|] == t.text;
    assert p[e..] == p[i..][|t.text|..];
    LiteralRun(p, i, e, "");
    assert "" + p[i..e] == t.text;
  }

  /** A whole list. */
  lemma ListComesBack(p: string, ts: seq<Token>)
    requires CutsCleanly(ts, "") && p == Reprint(ts)
    ensures Tokens(p, 0, "") == ts && !HasError(p, 0)
  {
    hide Tokens, HasError, Reprint, CutsCleanly;
    assert p[0..] == p == Reprint(ts) + "";
    TokensAtEnd(p, "");
    if ts == [] {
      assert p == "" by { ReprintFlush(""); }
    } else {
      PrintedComesBack(p, 0, ts, "", "");
      assert Flush("") == [];
    }
  }

  lemma CleanListsComeBack(p: string)
    ensures forall ts | CutsCleanly(ts, "") && p == Reprint(ts) :: Tokens(p, 0, "") == ts && !HasError(p, 0)
    ensures forall ts, tail | CutsCleanly(ts, tail) && p == Reprint(ts) + tail :: ts <= Tokens(p, 0, "")
  {
    hide Tokens, HasError, Reprint, CutsCleanly;
    forall ts | CutsCleanly(ts, "") && p == Reprint(ts)
      ensures Tokens(p, 0, "") == ts && !HasError(p, 0)
    {
      ListComesBack(p, ts);
    }
    forall ts, tail | CutsCleanly(ts, tail) && p == Reprint(ts) + tail
      ensures ts <= Tokens(p, 0, "")
    {
      assert p[0..] == p;
      if ts != [] {
        PrintedComesBack(p, 0, ts, tail, "");
        assert Flush("") == [];
      }
    }
  }

  /** An option that is never closed: the error token comes first, and everything but the percent sign follows as one
      literal. */
  lemma UnclosedComesOut(p: string, lit: string, name: string, rest: string)
    requires p == lit + "%" + name + "{" + rest
    requires '%' !in lit && '%' !in rest && '}' !in rest && forall k | 0 <= k < |name| :: IsLetter(name[k])
    ensures HasError(p, 0) && Tokens(p, 0, "") == [Literal("<<pattern_error>>"), Literal(lit + name + "{" + rest)]
  {
    hide Tokens, HasError, NameEnd, CloseAt, IsLetter;
    var i, m := |lit|, |lit| + 1 + |name|;
    var follow := name + "{" + rest;
    assert p[0..i] == lit && p[i] == '%' && p[i + 1..] == follow && p[m] == '{' && p[m + 1..] == rest;
    LiteralRun(p, 0, i, "");
    assert "" + lit == lit;
    assert forall k | i < k < m :: p[k] == name[k - i - 1];
    NameEndsAt(p, i + 1, m);
    NeverCloses(p, m + 1);
    NoPercent(name);
    assert p[i + 1] != '%' by { assert p[i + 1] == follow[0]; }
    TokensAt(p, i, lit);
    OnlyLiteral(p, i + 1, lit);
    Assoc(lit, name, "{");
    Assoc(lit, name + "{", rest);
  }

  /** Nothing but literal text from `i` on. */
  lemma OnlyLiteral(p: string, i: nat, text: string)
    requires i < |p| && '%' !in p[i..]
    ensures Tokens(p, i, text) == [Literal(text + p[i..])]
  {
    hide Tokens, HasError;
    assert p[i..|p|] == p[i..];
    LiteralRun(p, i, |p|, text);
    TokensAtEnd(p, text + p[i..]);
  }

  lemma NoPercent(name: string)
    requires forall k | 0 <= k < |name| :: IsLetter(name[k])
    ensures '%' !in name
  {
  }

  lemma {:induction false} NeverCloses(p: string, n: nat)
    requires n <= |p| && '}' !in p[n..]
    ensures CloseAt(p, n) == |p|
    decreases |p| - n
  {
    if n < |p| {
      assert p[n] == p[n..][0] && p[n..][1..] == p[n + 1..];
      NeverCloses(p, n + 1);
    }
  }

  // ---------- patterns with errors ----------

  /** How many `}` there are. */
  function Closes(s: string): nat {
    if s == "" then 0 else (if s[0] == '}' then 1 else 0) + Closes(s[1..])
  }

  lemma {:induction false} ClosesConcat(a: string, b: string)
    ensures Closes(a + b) == Closes(a) + Closes(b)
  {
    if a == "" {
      assert a + b == b;
    } else {
      ClosesConcat(a[1..], b);
      ConcatHead(a, b);
    }
  }

  lemma ClosesCut(p: string, i: nat, e: nat)
    requires i <= e <= |p|
    ensures Closes(p[i..]) == Closes(p[i..e]) + Closes(p[e..])
  {
    ClosesConcat(p[i..e], p[e..]);
    assert p[i..e] + p[e..] == p[i..];
  }

  lemma {:induction false} NoCloses(s: string)
    requires forall k | 0 <= k < |s| :: s[k] != '}'
    ensures Closes(s) == 0
  {
    if s == "" {
    } else {
      NoCloses(s[1..]);
    }
  }

  lemma PiecesCount(text: string, t: Token, us: seq<Token>)
    ensures var r := Reprint(Flush(text) + [t] + us);
            && |r| == |text| + |Print(t)| + |Reprint(us)|
            && Closes(r) == Closes(text) + Closes(Print(t)) + Closes(Reprint(us))
  {
    hide Print, Reprint, Closes, Flush;
    ReprintPieces(text, t, us);
    ClosesConcat(text + Print(t), Reprint(us));
    ClosesConcat(text, Print(t));
  }

  /** What becomes of any pattern's characters: each empty option loses its two braces, and each unclosed one turns its `%`
      into the seventeen characters of the error text. */
  lemma {:induction false} ReprintCounts(p: string, i: nat, text: string)
    requires i <= |p|
    ensures var r := Reprint(Tokens(p, i, text));
            && |r| + 2 * EmptyOptions(p, i) == |text| + (|p| - i) + 16 * Errors(p, i)
            && Closes(r) + EmptyOptions(p, i) == Closes(text) + Closes(p[i..])
    decreases |p| - i
  {
    hide Reprint, Print, NameEnd, Tokens, Closes, CloseAt, HasError;
    if i == |p| {
      TokensAtEnd(p, text);
      ReprintFlush(text);
      NoCloses(p[i..]);
    } else if p[i] != '%' || (i + 1 < |p| && p[i + 1] == '%') {
      TokensAt(p, i, text);
      ReprintCounts(p, i + 1, text + [p[i]]);
      CountsBehindChar(p, i, text);
    } else {
      NoCloses("");
      var m := NameEnd(p, i + 1);
      TokensAt(p, i, text);
      if !OpensOption(p, m) {
        ReprintCounts(p, m, "");
        CountsBehindItem(p, i, m, text, Tokens(p, m, ""));
      } else {
        var c := CloseAt(p, m + 1);
        if c < |p| {
          ReprintCounts(p, c + 1, "");
          CountsBehindOption(p, i, m, c, text, Item(p[i + 1..m], p[m + 1..c]), Tokens(p, c + 1, ""));
        } else {
          ReprintCounts(p, i + 1, text);
          CountsBehindError(p, i, Tokens(p, i + 1, text));
        }
      }
    }
  }

  lemma CountsBehindChar(p: string, i: nat, text: string)
    requires i < |p|
    ensures Closes(text + [p[i]]) + Closes(p[i + 1..]) == Closes(text) + Closes(p[i..])
  {
    hide Closes;
    ClosesConcat(text, [p[i]]);
    ClosesCut(p, i, i + 1);
    assert p[i..i + 1] == [p[i]];
  }

  lemma CountsBehindItem(p: string, i: nat, m: nat, text: string, us: seq<Token>)
    requires i < m <= |p| && p[i] == '%'
    ensures var r := Reprint(Flush(text) + [Item(p[i + 1..m], "")] + us);
            && |r| == |text| + (m - i) + |Reprint(us)|
            && Closes(r) + Closes(p[m..]) == Closes(text) + Closes(p[i..]) + Closes(Reprint(us))
  {
    hide Print, Reprint, Closes;
    PiecesCount(text, Item(p[i + 1..m], ""), us);
    PrintItem(p, i, m);
    ClosesCut(p, i, m);
  }

  lemma CountsBehindOption(p: string, i: nat, m: nat, c: nat, text: string, t: Token, us: seq<Token>)
    requires i < m < c < |p| && p[i] == '%' && p[m] == '{' && p[c] == '}'
    requires t == Item(p[i + 1..m], p[m + 1..c])
    ensures var r := Reprint(Flush(text) + [t] + us);
            var lost := if c == m + 1 then 1 else 0;
            && |r| + 2 * lost == |text| + (c + 1 - i) + |Reprint(us)|
            && Closes(r) + lost + Closes(p[c + 1..]) == Closes(text) + Closes(p[i..]) + Closes(Reprint(us))
  {
    hide Print, Reprint, Closes, Flush;
    OptionCounts(p, i, m, c);
    PiecesCount(text, t, us);
    ClosesCut(p, i, c + 1);
  }

  lemma OptionCounts(p: string, i: nat, m: nat, c: nat)
    requires i < m < c < |p| && p[i] == '%' && p[m] == '{' && p[c] == '}'
    ensures var s := Print(Item(p[i + 1..m], p[m + 1..c]));
            var lost := if c == m + 1 then 1 else 0;
            |s| + 2 * lost == c + 1 - i && Closes(s) + lost == Closes(p[i..c + 1])
  {
    hide Print, Closes;
    PrintOption(p, i, m, c);
    if c == m + 1 {
      PrintItem(p, i, m);
      assert p[m + 1..c] == "";
      assert p[i..c + 1] == p[i..m] + ['{', '}'];
      ClosesConcat(p[i..m], ['{', '}']);
      EmptyBracesClose();
    }
  }

  lemma EmptyBracesClose()
    ensures Closes(['{', '}']) == 1
  {
    assert ['{', '}'][1..] == ['}'] && ['}'][1..] == "";
  }

  lemma CountsBehindError(p: string, i: nat, us: seq<Token>)
    requires i < |p| && p[i] == '%'
    ensures |Reprint([PATTERN_ERROR] + us)| == 17 + |Reprint(us)|
    ensures Closes(Reprint([PATTERN_ERROR] + us)) == Closes(Reprint(us))
    ensures Closes(p[i..]) == Closes(p[i + 1..])
  {
    hide Print, Reprint, Closes;
    var e := PATTERN_ERROR.text;
    ReprintConcat([PATTERN_ERROR], us);
    assert [PATTERN_ERROR] == Flush(e);
    ReprintFlush(e);
    NoCloses(e);
    ClosesConcat(e, Reprint(us));
    ClosesCut(p, i, i + 1);
    NoCloses(p[i..i + 1]);
  }

  /** For every pattern the tokens print back to it exactly when every option opened is closed and none is empty. A doubled
      `%` does not spoil this. */
  lemma RoundTripIff(p: string)
    ensures Reprint(Tokens(p, 0, "")) == p <==> !HasError(p, 0) && EmptyOptions(p, 0) == 0
  {
    assert p[0..] == p;
    NoCloses("");
    ReprintCounts(p, 0, "");
    if !HasError(p, 0) {
      ReprintFrom(p, 0, "");
    }
  }

  /** A pattern that does not come back: its braces are dropped. */
  lemma EmptyBracesAreLost(p: string)
    requires p == "%d{}"
    ensures Reprint(Tokens(p, 0, "")) == "%d"
  {
    hide Tokens, Reprint;
    assert NameEnd(p, 1) == NameEnd(p, 2) == 2;
    assert CloseAt(p, 3) == 3;
    TokensAt(p, 0, "");
    TokensAtEnd(p, "");
    assert p[1..2] == "d" && p[3..3] == "";
    ReprintPieces("", Item("d", ""), []);
    ReprintFlush("");
  }

  predicate HasEmptyBraces(p: string) {
    exists k :: 0 <= k < |p| - 1 && p[k] == '{' && p[k + 1] == '}'
  }

  predicate BracesClose(p: string) {
    forall k | 0 <= k < |p| && p[k] == '{' :: exists c :: k < c < |p| && p[c] == '}'
  }

  lemma {:induction false} CleanFrom(p: string, i: nat)
    requires i <= |p| && BracesClose(p)
    ensures !HasError(p, i)
    ensures !HasEmptyBraces(p) ==> EmptyOptions(p, i) == 0
    decreases |p| - i
  {
    if i == |p| {
    } else {
      if p[i] != '%' || (i + 1 < |p| && p[i + 1] == '%') {
        CleanFrom(p, i + 1);
      } else {
        var m := NameEnd(p, i + 1);
        if !OpensOption(p, m) {
          CleanFrom(p, m);
        } else {
          var c := CloseAt(p, m + 1);
          var k :| m < k < |p| && p[k] == '}';
          CleanFrom(p, c + 1);
        }
      }
    }
  }

  /** A pattern whose every `{` is closed later on and never at once comes back whole. */
  lemma RoundTrip(p: string)
    requires BracesClose(p) && !HasEmptyBraces(p)
    ensures !HasError(p, 0) && Reprint(Tokens(p, 0, "")) == p
  {
    CleanFrom(p, 0);
    RoundTripIff(p);
  }

  /** A doubled `%` is no escape: wherever two of them stand, the first adds a `%` to the literal and the second begins an
      item, with the letters behind it for a name and what stands in the braces behind those for an option. */
  lemma DoubledPercentStartsItem(p: string, i: nat, text: string)
    requires i + 1 < |p| && p[i] == '%' && p[i + 1] == '%'
    requires i + 2 < |p| ==> p[i + 2] != '%'
    requires var m := NameEnd(p, i + 2); OpensOption(p, m) ==> CloseAt(p, m + 1) < |p|
    ensures var m := NameEnd(p, i + 2);
            if OpensOption(p, m) then
              var c := CloseAt(p, m + 1);
              Tokens(p, i, text) == [Literal(text + "%"), Item(p[i + 2..m], p[m + 1..c])] + Tokens(p, c + 1, "")
            else
              Tokens(p, i, text) == [Literal(text + "%"), Item(p[i + 2..m], "")] + Tokens(p, m, "")
  {
    hide Tokens, NameEnd, CloseAt;
    TokensAt(p, i, text);
    TokensAt(p, i + 1, text + "%");
  }
}
