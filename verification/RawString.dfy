/** The raw-string literals the build script prints, and the reader of them that
    the Rust Reference describes (Tokens, Raw string literals). */
module RawString {
  import opened Basics

  function Hashes(n: nat): (pad: string)
    ensures |pad| == n && forall i :: 0 <= i < n ==> pad[i] == '#'
  {
    seq(n, i => '#')
  }

  function Quote(hashes: nat): (mark: string)
    ensures |mark| == hashes + 1
  {
    "\"" + Hashes(hashes)
  }

  function Literal(value: string, hashes: nat): string {
    "r" + Hashes(hashes) + "\"" + value + "\"" + Hashes(hashes)
  }

  method Lit(value: string) returns (literal: string)
    ensures exists hashes: nat ::
              && literal == Literal(value, hashes)
              && !Contains(value, Quote(hashes))
              && hashes <= |value|
              && forall fewer: nat :: fewer < hashes ==> Contains(value, Quote(fewer))
  {
    var hashes := 0;
    while Contains(value, Quote(hashes))
      invariant hashes <= |value|
      invariant forall fewer: nat :: fewer < hashes ==> Contains(value, Quote(fewer))
      decreases |value| - hashes
    {
      ContainsFits(value, Quote(hashes));
      hashes := hashes + 1;
    }
    var pad := Hashes(hashes);
    literal := "r" + pad + "\"" + value + "\"" + pad;
  }

  lemma {:induction false} ContainsFits(text: string, mark: string)
    requires Contains(text, mark)
    ensures |mark| <= |text|
  {
    if !StartsWith(text, mark) { ContainsFits(text[1..], mark); }
  }

  // ---- Reading -----------------------------------------------------------

  /** The number of '#' at the start. */
  function Leading(text: string): (n: nat)
    ensures n <= |text|
  {
    if text != [] && text[0] == '#' then 1 + Leading(text[1..]) else 0
  }

  /** The text before the first closing mark, and the text after the mark. */
  function Scan(text: string, mark: string): Option<(string, string)> {
    if StartsWith(text, mark) then Some(("", text[|mark|..]))
    else if text == [] then None
    else match Scan(text[1..], mark)
      case None => None
      case Some((value, rest)) => Some(([text[0]] + value, rest))
  }

  /** One raw-string literal at the start of a source text: its value and what
      follows it. */
  function Read(text: string): Option<(string, string)> {
    if text == [] || text[0] != 'r' then None
    else
      var hashes := Leading(text[1..]);
      var body := text[1 + hashes..];
      if body == [] || body[0] != '"' then None else Scan(body[1..], Quote(hashes))
  }

  lemma {:induction false} LeadingPad(hashes: nat, text: string)
    requires text != [] && text[0] != '#'
    ensures Leading(Hashes(hashes) + text) == hashes
  {
    if hashes == 0 {
      assert Hashes(0) + text == text;
    } else {
      assert (Hashes(hashes) + text)[1..] == Hashes(hashes - 1) + text;
      LeadingPad(hashes - 1, text);
    }
  }

  /** Scanning stops at the closing mark unless the mark occurs in the value; an
      occurrence cannot run over the value's end into the closing quote. */
  lemma {:induction false} ScanStops(value: string, hashes: nat, rest: string)
    ensures !Contains(value, Quote(hashes)) ==> Scan(value + Quote(hashes) + rest, Quote(hashes)) == Some((value, rest))
    ensures Contains(value, Quote(hashes)) ==>
              exists short, more :: Scan(value + Quote(hashes) + rest, Quote(hashes)) == Some((short, more)) && |short| < |value|
  {
    var (mark, text) := (Quote(hashes), value + Quote(hashes) + rest);
    if value == [] {
      assert text == mark + rest && text[|mark|..] == rest;
    } else {
      assert text[1..] == value[1..] + mark + rest;
      ScanStops(value[1..], hashes, rest);
      assert value == [value[0]] + value[1..];
      MarkStartsInValue(value, hashes, rest);
      if StartsWith(text, mark) {
        assert Scan(text, mark) == Some(("", text[|mark|..])) && |""| < |value|;
      } else if Contains(value, mark) {
        var short, more :| Scan(text[1..], mark) == Some((short, more)) && |short| < |value[1..]|;
        assert Scan(text, mark) == Some(([text[0]] + short, more));
      }
    }
  }

  lemma MarkStartsInValue(value: string, hashes: nat, rest: string)
    requires value != []
    ensures StartsWith(value + Quote(hashes) + rest, Quote(hashes)) <==> StartsWith(value, Quote(hashes))
  {
    var (mark, text) := (Quote(hashes), value + Quote(hashes) + rest);
    assert text[|value|] == '"' && forall i :: 1 <= i < |mark| ==> mark[i] == '#';
    assert |mark| <= |value| ==> text[..|mark|] == value[..|mark|];
  }

  /** A printed literal, whatever follows it, reads back as its value and ends
      exactly there if and only if the value does not hold the closing mark. */
  lemma LiteralReadsBackExactly(value: string, hashes: nat, rest: string)
    ensures Read(Literal(value, hashes) + rest) == Some((value, rest)) <==> !Contains(value, Quote(hashes))
  {
    var text := Literal(value, hashes) + rest;
    var body := "\"" + (value + Quote(hashes) + rest);
    assert text == "r" + Hashes(hashes) + body;
    assert text[1..] == Hashes(hashes) + body;
    LeadingPad(hashes, body);
    assert text[1 + hashes..] == body && body[1..] == value + Quote(hashes) + rest;
    ScanStops(value, hashes, rest);
  }

  /** The mark with one more '#' is harder to meet. */
  lemma {:induction false} FewerHashesAreFound(value: string, fewer: nat, hashes: nat)
    requires fewer <= hashes && Contains(value, Quote(hashes))
    ensures Contains(value, Quote(fewer))
  {
    if StartsWith(value, Quote(hashes)) {
      assert value[..fewer + 1] == Quote(hashes)[..fewer + 1] == Quote(fewer);
    } else {
      FewerHashesAreFound(value[1..], fewer, hashes);
    }
  }

  /** What `Lit` prints reads back whatever follows it; fewer hashes would not,
      more would be longer. */
  lemma ChosenHashesAreLeast(value: string, hashes: nat, rest: string, other: nat)
    requires !Contains(value, Quote(hashes)) && forall fewer: nat :: fewer < hashes ==> Contains(value, Quote(fewer))
    ensures Read(Literal(value, hashes) + rest) == Some((value, rest))
    ensures Read(Literal(value, other) + rest) == Some((value, rest)) <==> hashes <= other
  {
    LiteralReadsBackExactly(value, hashes, rest);
    LiteralReadsBackExactly(value, other, rest);
    if hashes <= other && Contains(value, Quote(other)) {
      FewerHashesAreFound(value, hashes, other);
      assert false;
    }
  }
}
