/** The string helpers of the utilities module: first-letter case changes, back-tick quoting,
    splitting and joining dotted paths, and the camel-case joiner of path components.
    Java's Character.toUpperCase/toLowerCase are modelled on ASCII letters only. */
module Strings {
  import opened Options

  /** Character.toUpperCase, restricted to ASCII: 'a'..'z' map to 'A'..'Z', all else is kept. */
  function UpperCase(c: char): char
  {
    if 'a' <= c <= 'z' then (c as int - 32) as char else c
  }

  /** Character.toLowerCase, restricted to ASCII: 'A'..'Z' map to 'a'..'z', all else is kept. */
  function LowerCase(c: char): char
  {
    if 'A' <= c <= 'Z' then (c as int + 32) as char else c
  }

  /** The value of capitalize on a non-null string. */
  function Capitalized(s: string): string
  {
    if |s| == 0 then s else [UpperCase(s[0])] + s[1..]
  }

  /** The value of uncapitalize on a non-null string. */
  function Uncapitalized(s: string): string
  {
    if |s| == 0 then s else [LowerCase(s[0])] + s[1..]
  }

  /** capitalize: null and "" come back unchanged; otherwise the characters are copied into an
      array whose first cell is replaced by its upper-case form. */
  method Capitalize(name: Option<string>) returns (r: Option<string>)
    ensures r.None? <==> name.None?
    ensures name.Some? ==> |r.value| == |name.value|
    ensures name.Some? && |name.value| == 0 ==> r == name
    ensures name.Some? && |name.value| > 0 ==> r.value[0] == UpperCase(name.value[0])
    ensures name.Some? ==> forall i | 1 <= i < |name.value| :: r.value[i] == name.value[i]
    ensures name.Some? ==> r.value == Capitalized(name.value)
  {
    if name.None? || |name.value| == 0 {
      return name;
    }
    var s := name.value;
    var chars := new char[|s|](i requires 0 <= i < |s| => s[i]);
    chars[0] := UpperCase(chars[0]);
    r := Some(chars[..]);
  }

  /** uncapitalize: null and "" come back unchanged; otherwise the first character of the copied
      array is replaced by its lower-case form. */
  method Uncapitalize(name: Option<string>) returns (r: Option<string>)
    ensures r.None? <==> name.None?
    ensures name.Some? ==> |r.value| == |name.value|
    ensures name.Some? && |name.value| == 0 ==> r == name
    ensures name.Some? && |name.value| > 0 ==> r.value[0] == LowerCase(name.value[0])
    ensures name.Some? ==> forall i | 1 <= i < |name.value| :: r.value[i] == name.value[i]
    ensures name.Some? ==> r.value == Uncapitalized(name.value)
  {
    if name.None? || |name.value| == 0 {
      return name;
    }
    var s := name.value;
    var chars := new char[|s|](i requires 0 <= i < |s| => s[i]);
    chars[0] := LowerCase(chars[0]);
    r := Some(chars[..]);
  }

  /** Capitalising twice is capitalising once, and uncapitalising a capitalised string is the
      same as uncapitalising the original: only the first character is ever touched. */
  lemma CaseChangesTouchOnlyTheHead(s: string)
    ensures Capitalized(Capitalized(s)) == Capitalized(s)
    ensures Uncapitalized(Uncapitalized(s)) == Uncapitalized(s)
    ensures Uncapitalized(Capitalized(s)) == Uncapitalized(s)
    ensures Capitalized(Uncapitalized(s)) == Capitalized(s)
  {
  }

  /** backTicks: "`" + value + "`"; Java's string concatenation renders null as "null". */
  function BackTicks(value: Option<string>): (r: string)
    ensures value.Some? ==> |r| == |value.value| + 2 && r[1..|r| - 1] == value.value
    ensures value.None? ==> r == "`null`"
    ensures |r| >= 2 && r[0] == '`' && r[|r| - 1] == '`'
  {
    "`" + (match value case Some(v) => v case None => "null") + "`"
  }

  /** String.join(delimiter, elements). */
  function Join(delimiter: string, elements: seq<string>): string
  {
    if |elements| == 0 then ""
    else if |elements| == 1 then elements[0]
    else elements[0] + delimiter + Join(delimiter, elements[1..])
  }

  /** Every piece of the string between dots, keeping all empty pieces: a string with k dots has
      k + 1 pieces. This is what the regular expression "\\." matches before Java's split drops
      trailing empty strings. */
  function SplitOnDot(s: string): (pieces: seq<string>)
    ensures |pieces| >= 1
    ensures forall t | t in pieces :: '.' !in t
  {
    if |s| == 0 then [""]
    else
      var rest := SplitOnDot(s[1..]);
      if s[0] == '.' then [""] + rest
      else [[s[0]] + rest[0]] + rest[1..]
  }

  /** Removes the empty strings at the end of a list, as String.split with limit 0 does. */
  function DropTrailingEmpty(tokens: seq<string>): (r: seq<string>)
    ensures r <= tokens
    ensures |r| > 0 ==> r[|r| - 1] != ""
    ensures forall i | |r| <= i < |tokens| :: tokens[i] == ""
  {
    if |tokens| > 0 && tokens[|tokens| - 1] == "" then DropTrailingEmpty(tokens[..|tokens| - 1])
    else tokens
  }

  /** tokenizePath: path.split("\\."). When no dot occurs the result is the path itself (so ""
      gives [""]); otherwise all pieces, with trailing empty pieces removed. */
  function TokenizePath(path: string): (tokens: seq<string>)
    ensures forall t | t in tokens :: '.' !in t
  {
    if '.' !in path then [path] else DropTrailingEmpty(SplitOnDot(path))
  }

  /** untokenizePath: the tokens joined by ".". */
  function UntokenizePath(tokens: seq<string>): string
  {
    Join(".", tokens)
  }

  /** Joining the pieces with dots restores the string. */
  lemma {:induction false} JoinSplitOnDot(s: string)
    ensures Join(".", SplitOnDot(s)) == s
  {
    if |s| > 0 {
      JoinSplitOnDot(s[1..]);
      var rest := SplitOnDot(s[1..]);
      if s[0] == '.' {
        assert SplitOnDot(s) == [""] + rest;
        assert ([""] + rest)[1..] == rest;
      } else {
        assert SplitOnDot(s) == [[s[0]] + rest[0]] + rest[1..];
        if |rest| > 1 {
          assert ([[s[0]] + rest[0]] + rest[1..])[1..] == rest[1..];
          assert Join(".", rest) == rest[0] + "." + Join(".", rest[1..]);
        }
        assert s == [s[0]] + s[1..];
      }
    }
  }

  /** The last piece is empty exactly when the string is empty or ends with a dot. */
  lemma {:induction false} LastPieceEmpty(s: string)
    ensures var pieces := SplitOnDot(s);
      pieces[|pieces| - 1] == "" <==> (|s| == 0 || s[|s| - 1] == '.')
  {
    if |s| > 0 {
      LastPieceEmpty(s[1..]);
    }
  }

  /** Round trip: untokenizing the tokens of a path that does not end in '.' gives the path back. */
  lemma UntokenizeTokenize(path: string)
    requires |path| == 0 || path[|path| - 1] != '.'
    ensures UntokenizePath(TokenizePath(path)) == path
  {
    if '.' in path {
      LastPieceEmpty(path);
      JoinSplitOnDot(path);
    }
  }

  /** pathToLowerSnakeCase: the first component uncapitalised followed by every later component
      capitalised, concatenated without separator (camel case, despite the name). The source
      reads the first component with List.get(0), so the list must not be empty. */
  function PathToLowerSnakeCase(pathComponents: seq<string>): string
    requires |pathComponents| > 0
  {
    var head := Uncapitalized(pathComponents[0]);
    var tail := seq(|pathComponents| - 1, i requires 0 <= i < |pathComponents| - 1 =>
      Capitalized(pathComponents[i + 1]));
    Join("", [head, Join("", tail)])
  }

  /** Joining with the empty delimiter distributes over appending one more element. */
  lemma {:induction false} JoinEmptyDelimiterSnoc(elements: seq<string>, last: string)
    ensures Join("", elements + [last]) == Join("", elements) + last
  {
    if |elements| > 1 {
      JoinEmptyDelimiterSnoc(elements[1..], last);
      assert (elements + [last])[1..] == elements[1..] + [last];
    } else if |elements| == 1 {
      assert elements + [last] == [elements[0], last];
    }
  }

  /** Joining distributes over appending one more element after a non-empty list. */
  lemma {:induction false} JoinSnoc(delimiter: string, elements: seq<string>, last: string)
    requires |elements| > 0
    ensures Join(delimiter, elements + [last]) == Join(delimiter, elements) + delimiter + last
    decreases |elements|
  {
    if |elements| > 1 {
      JoinSnoc(delimiter, elements[1..], last);
      assert (elements + [last])[1..] == elements[1..] + [last];
    } else {
      assert elements + [last] == [elements[0], last];
      assert [elements[0], last][1..] == [last];
    }
  }

  /** A single component is only uncapitalised. */
  lemma PathToLowerSnakeCaseSingle(component: string)
    ensures PathToLowerSnakeCase([component]) == Uncapitalized(component)
  {
    JoinPair(Uncapitalized(component), Join("", []));
  }

  /** Two strings joined by the empty delimiter are their concatenation. */
  lemma JoinPair(first: string, second: string)
    ensures Join("", [first, second]) == first + second
  {
    assert [first, second][1..] == [second];
  }

  /** Appending a component appends its capitalised form: with the single-component case this
      determines the function, so the result is exactly uncapitalize(head) followed by every
      later component capitalised, with nothing between them. */
  lemma PathToLowerSnakeCaseSnoc(pathComponents: seq<string>, component: string)
    requires |pathComponents| > 0
    ensures PathToLowerSnakeCase(pathComponents + [component])
         == PathToLowerSnakeCase(pathComponents) + Capitalized(component)
  {
    var n := |pathComponents|;
    var tail := seq(n - 1, i requires 0 <= i < n - 1 => Capitalized(pathComponents[i + 1]));
    var longer := pathComponents + [component];
    var tail' := seq(n, i requires 0 <= i < n => Capitalized(longer[i + 1]));
    assert tail' == tail + [Capitalized(component)];
    JoinEmptyDelimiterSnoc(tail, Capitalized(component));
    JoinPair(Uncapitalized(pathComponents[0]), Join("", tail));
    JoinPair(Uncapitalized(longer[0]), Join("", tail'));
  }

  /** n empty strings. */
  function EmptyStrings(n: nat): (r: seq<string>)
    ensures |r| == n && forall i | 0 <= i < n :: r[i] == ""
  {
    seq(n, i => "")
  }

  /** n dots. */
  function Dots(n: nat): (r: string)
    ensures |r| == n && forall i | 0 <= i < n :: r[i] == '.'
  {
    seq(n, i => '.')
  }

  /** n >= 1 empty strings joined by dots are n - 1 dots. */
  lemma {:induction false} JoinEmptyStrings(n: nat)
    requires n >= 1
    ensures Join(".", EmptyStrings(n)) == Dots(n - 1)
  {
    if n > 1 {
      JoinEmptyStrings(n - 1);
      assert EmptyStrings(n)[1..] == EmptyStrings(n - 1);
    }
  }

  /** Trailing empty elements contribute only their delimiting dots. */
  lemma {:induction false} JoinWithEmptyTail(elements: seq<string>, n: nat)
    requires |elements| >= 1
    ensures Join(".", elements + EmptyStrings(n)) == Join(".", elements) + Dots(n)
  {
    if |elements| == 1 {
      if n > 0 {
        assert (elements + EmptyStrings(n))[1..] == EmptyStrings(n);
        JoinEmptyStrings(n);
        assert Dots(n) == "." + Dots(n - 1);
      } else {
        assert elements + EmptyStrings(0) == elements;
      }
    } else {
      JoinWithEmptyTail(elements[1..], n);
      assert (elements + EmptyStrings(n))[1..] == elements[1..] + EmptyStrings(n);
    }
  }

  /** For any path, untokenizing its tokens gives the path with its trailing dots removed: a
      prefix of the path followed in the path only by dots. This is the price of split dropping
      trailing empty strings ("a.b.." comes back as "a.b", ".." as ""). */
  lemma UntokenizeTokenizeDropsTrailingDots(path: string)
    ensures var u := UntokenizePath(TokenizePath(path));
      u <= path && forall i | |u| <= i < |path| :: path[i] == '.'
  {
    if '.' in path {
      var pieces := SplitOnDot(path);
      var kept := DropTrailingEmpty(pieces);
      var n := |pieces| - |kept|;
      assert pieces == kept + EmptyStrings(n);
      JoinSplitOnDot(path);
      if |kept| == 0 {
        assert pieces == EmptyStrings(|pieces|);
        JoinEmptyStrings(|pieces|);
        assert path == Dots(|pieces| - 1);
      } else {
        JoinWithEmptyTail(kept, n);
      }
    }
  }
}
