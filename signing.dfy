/**
 * `androidSigning` (index.js:166-179): `replace-in-file` over
 * `android/app/build.gradle` with the regular expression
 * `/signingConfig signingConfigs.*$/gm` and the replacement string
 * `'signingConfig signingConfigs.' + app.name`.
 *
 * The file is given as its lines, split at the JavaScript line terminators
 * (LF, CR, U+2028, U+2029), which neither `.` nor the multiline `$` crosses.
 * The pattern has no `^`, so a match may start anywhere in a line; `.*$`
 * then runs to the end of that line, so each line is rewritten at its first
 * match and at most once.
 *
 * `replace-in-file` hands the replacement to `String.prototype.replace`, which
 * reads it as a template: `$$` stands for `$` and `$&` for the matched text
 * (section 22.1.3.19.1, GetSubstitution, of ECMA-262). Both are modelled, so a
 * variation name containing `$` is not always inserted as written.
 */
module Signing {
  import opened Wrappers

  /** The literal part of the regular expression. */
  const Pattern := "signingConfig signingConfigs"

  /** The signing line the switch is meant to leave: `signingConfig signingConfigs.<name>`. */
  function Selector(name: string): (r: string)
    ensures |r| == |Pattern| + 1 + |name| && r[..|Pattern|] == Pattern
  {
    Pattern + "." + name
  }

  /** The name part of the replacement template after substitution: `$$` gives `$`,
      `$&` gives the matched text, and every other character stands for itself. */
  function Expand(name: string, matched: string): (r: string)
    ensures '$' !in name ==> r == name
    decreases |name|
  {
    if |name| == 0 then ""
    else if |name| >= 2 && name[0] == '$' && name[1] == '$' then "$" + Expand(name[2..], matched)
    else if |name| >= 2 && name[0] == '$' && name[1] == '&' then matched + Expand(name[2..], matched)
    else
      assert '$' !in name ==> '$' !in name[1..];
      [name[0]] + Expand(name[1..], matched)
  }

  /** The name, read as a template, holds `$c`, with that `$` not consumed by an
      earlier `$$`. */
  predicate Quotes(name: string, c: char)
    decreases |name|
  {
    if |name| < 2 then false
    else if name[0] == '$' && name[1] == c then true
    else if name[0] == '$' && name[1] == '$' then Quotes(name[2..], c)
    else Quotes(name[1..], c)
  }

  /** The name quotes the text of or around the match: it holds `$&`, `` $` `` or `$'`. */
  predicate QuotesMatch(name: string)
  {
    Quotes(name, '&') || Quotes(name, '`') || Quotes(name, '\'')
  }

  /** A JavaScript line terminator, which neither `.` nor the multiline `$` crosses. */
  predicate LineTerminator(c: char)
  {
    c == '\n' || c == '\r' || c == '\U{2028}' || c == '\U{2029}'
  }

  /** The text holds no line terminator. */
  predicate OnOneLine(text: string)
  {
    forall k | 0 <= k < |text| :: !LineTerminator(text[k])
  }

  /** A name whose substituted replacement stays on the line it replaces: it holds no
      line terminator and quotes neither the text before (`` $` ``) nor the text after
      (`$'`) the match, which in the source reach into the other lines of the file. */
  predicate PlainName(name: string)
  {
    OnOneLine(name) && !Quotes(name, '`') && !Quotes(name, '\'')
  }

  /** The replacement the source writes for a match `matched`. */
  function Replacement(name: string, matched: string): (r: string)
    ensures |r| >= |Pattern| + 1 && r[..|Pattern|] == Pattern && r[|Pattern|] == '.'
    ensures '$' !in name ==> r == Selector(name)
  {
    Pattern + "." + Expand(name, matched)
  }

  predicate OccursAt(line: string, i: nat)
  {
    i + |Pattern| <= |line| && line[i..i + |Pattern|] == Pattern
  }

  ghost predicate Contains(line: string)
  {
    exists i: nat :: OccursAt(line, i)
  }

  /** `i` is where the regular expression's leftmost match in `line` starts. */
  ghost predicate IsFirstMatch(line: string, i: nat)
  {
    OccursAt(line, i) && forall j: nat | j < i :: !OccursAt(line, j)
  }

  /** The first match at or after `from`, if there is one. */
  function FirstMatchFrom(line: string, from: nat): (r: Option<nat>)
    requires forall j: nat | j < from :: !OccursAt(line, j)
    ensures r.Some? ==> IsFirstMatch(line, r.value)
    ensures r.None? ==> !Contains(line)
    decreases |line| - from
  {
    if from + |Pattern| > |line| then None
    else if line[from..from + |Pattern|] == Pattern then Some(from)
    else FirstMatchFrom(line, from + 1)
  }

  /** The leftmost match in `line`, if there is one. */
  function FirstMatch(line: string): (r: Option<nat>)
    ensures r.Some? <==> Contains(line)
    ensures r.Some? ==> IsFirstMatch(line, r.value)
  {
    FirstMatchFrom(line, 0)
  }

  /** One line under the `gm` replace: from the first match to the end of the
      line, the text becomes the substituted replacement; a line without a match
      is kept. */
  function RewriteLine(line: string, name: string): (r: string)
    ensures !Contains(line) ==> r == line
    ensures Contains(line) ==>
      exists i: nat :: IsFirstMatch(line, i) && r == line[..i] + Replacement(name, line[i..])
  {
    match FirstMatch(line)
    case None => line
    case Some(i) => line[..i] + Replacement(name, line[i..])
  }

  /** The whole file under the `gm` replace: every line on its own. */
  function RewriteLines(lines: seq<string>, name: string): (r: seq<string>)
    ensures |r| == |lines|
    ensures forall k | 0 <= k < |lines| :: r[k] == RewriteLine(lines[k], name)
  {
    if lines == [] then []
    else [RewriteLine(lines[0], name)] + RewriteLines(lines[1..], name)
  }

  /** What `androidSigning` leaves in the build script, and whether it warned. */
  datatype SigningOutcome = SigningOutcome(gradle: Option<seq<string>>, warned: bool)

  /** `androidSigning(app)`: `None` stands for a build script that cannot be read;
      then `replace.sync` throws, the warning is printed and nothing changes. */
  function AndroidSigning(gradle: Option<seq<string>>, name: string): (r: SigningOutcome)
    ensures r.warned <==> gradle.None?
    ensures gradle.None? ==> r.gradle == gradle
    ensures gradle.Some? ==> r.gradle == Some(RewriteLines(gradle.value, name))
  {
    match gradle
    case None => SigningOutcome(None, true)
    case Some(lines) => SigningOutcome(Some(RewriteLines(lines, name)), false)
  }

  // ---- the replacement template -----------------------------------------------

  /** A name that does not quote the match expands the same whatever was matched. */
  lemma {:induction false} ExpandIgnoresMatch(name: string, m1: string, m2: string)
    requires !QuotesMatch(name)
    ensures Expand(name, m1) == Expand(name, m2)
    decreases |name|
  {
    if |name| >= 2 && name[0] == '$' && name[1] == '$' {
      ExpandIgnoresMatch(name[2..], m1, m2);
    } else if |name| >= 1 {
      ExpandIgnoresMatch(name[1..], m1, m2);
    }
  }

  // ---- properties of the rewrite ----------------------------------------------

  /** For a name without `$`, a rewritten line keeps the text before its first match
      and then ends with exactly `signingConfig signingConfigs.<name>`; the kept text
      holds no match. */
  lemma RewrittenLineShape(line: string, name: string)
    requires Contains(line) && '$' !in name
    ensures var r := RewriteLine(line, name);
      && |r| >= |Selector(name)|
      && r[|r| - |Selector(name)|..] == Selector(name)
      && var keep := |r| - |Selector(name)|;
         keep <= |line| && r[..keep] == line[..keep] && !Contains(r[..keep])
  {
    var r := RewriteLine(line, name);
    var i: nat :| IsFirstMatch(line, i) && r == line[..i] + Replacement(name, line[i..]);
    assert r[..i] == line[..i];
    assert r[i..] == Selector(name);
    forall j: nat ensures !OccursAt(line[..i], j) {
      if j + |Pattern| <= i {
        assert line[..i][j..j + |Pattern|] == line[j..j + |Pattern|];
        assert j < i && !OccursAt(line, j);
      }
    }
  }

  /** Rewriting keeps the position of the first match: the kept prefix is the same
      text, and every replacement starts with the pattern. */
  lemma RewriteKeepsFirstMatch(line: string, i: nat, replacement: string)
    requires IsFirstMatch(line, i)
    requires |replacement| >= |Pattern| && replacement[..|Pattern|] == Pattern
    ensures IsFirstMatch(line[..i] + replacement, i)
  {
    var r := line[..i] + replacement;
    assert r[i..i + |Pattern|] == Pattern;
    forall j: nat | j < i ensures !OccursAt(r, j) {
      assert r[j..j + |Pattern|] == line[j..j + |Pattern|] by {
        forall k | j <= k < j + |Pattern| ensures r[k] == line[k] {
          if k >= i {
            assert r[k] == Pattern[k - i] == line[k];
          }
        }
      }
      assert !OccursAt(line, j);
    }
  }

  /** Switching the signing line to `a` and then to `b` is the same as switching
      straight to `b`, when `a` is plain and `b` does not quote the match. */
  lemma RewriteLineOverrides(line: string, a: string, b: string)
    requires PlainName(a) && !QuotesMatch(b)
    ensures RewriteLine(RewriteLine(line, a), b) == RewriteLine(line, b)
  {
    if Contains(line) {
      var r := RewriteLine(line, a);
      var i: nat :| IsFirstMatch(line, i) && r == line[..i] + Replacement(a, line[i..]);
      RewriteKeepsFirstMatch(line, i, Replacement(a, line[i..]));
      var s := RewriteLine(r, b);
      var i': nat :| IsFirstMatch(r, i') && s == r[..i'] + Replacement(b, r[i'..]);
      assert !(i' < i) && !(i < i');
      assert r[..i] == line[..i];
      var t := RewriteLine(line, b);
      var i'': nat :| IsFirstMatch(line, i'') && t == line[..i''] + Replacement(b, line[i''..]);
      assert !(i'' < i) && !(i < i'');
      ExpandIgnoresMatch(b, r[i..], line[i..]);
    }
  }

  /** The file-level form of RewriteLineOverrides. */
  lemma RewriteLinesOverrides(lines: seq<string>, a: string, b: string)
    requires PlainName(a) && !QuotesMatch(b)
    ensures RewriteLines(RewriteLines(lines, a), b) == RewriteLines(lines, b)
  {
    var once := RewriteLines(lines, a);
    forall k | 0 <= k < |lines|
      ensures RewriteLines(once, b)[k] == RewriteLines(lines, b)[k]
    {
      RewriteLineOverrides(lines[k], a, b);
    }
  }

  /** The signing rewrite is idempotent for a plain name that does not quote the match. */
  lemma RewriteLinesIdempotent(lines: seq<string>, name: string)
    requires PlainName(name) && !QuotesMatch(name)
    ensures RewriteLines(RewriteLines(lines, name), name) == RewriteLines(lines, name)
  {
    RewriteLinesOverrides(lines, name, name);
  }

  /** A build script with no matching line is left as it is, and no warning is printed. */
  lemma NoMatchNoChange(lines: seq<string>, name: string)
    requires forall k | 0 <= k < |lines| :: !Contains(lines[k])
    ensures AndroidSigning(Some(lines), name) == SigningOutcome(Some(lines), false)
  {
    assert RewriteLines(lines, name) == lines;
  }

  /** After the rewrite, for a name without `$`, every line that holds the pattern
      selects `name`. */
  lemma RewrittenLinesSelect(lines: seq<string>, name: string, k: nat)
    requires k < |lines| && Contains(lines[k]) && '$' !in name
    ensures var r := RewriteLines(lines, name)[k];
      |r| >= |Selector(name)| && r[|r| - |Selector(name)|..] == Selector(name)
  {
    RewrittenLineShape(lines[k], name);
  }

  // ---- a variation named `$&` -------------------------------------------------

  /** A variation named `$&` copies the old signing line into the new one, and every
      further switch to it makes the line longer again. */
  lemma AmpersandNameGrows()
    ensures var line := Selector("release");
      && RewriteLine(line, "$&") == Selector(line)
      && |RewriteLine(RewriteLine(line, "$&"), "$&")| > |RewriteLine(line, "$&")|
  {
    var line := Selector("release");
    assert IsFirstMatch(line, 0) by { assert line[..|Pattern|] == Pattern; }
    var r := RewriteLine(line, "$&");
    var i: nat :| IsFirstMatch(line, i) && r == line[..i] + Replacement("$&", line[i..]);
    assert !(0 < i);
    assert Expand("$&", line) == line;
    assert r == Selector(line);
    assert IsFirstMatch(r, 0) by { assert r[..|Pattern|] == Pattern; }
    var r2 := RewriteLine(r, "$&");
    var i2: nat :| IsFirstMatch(r, i2) && r2 == r[..i2] + Replacement("$&", r[i2..]);
    assert !(0 < i2);
    assert Expand("$&", r) == r;
  }

  // ---- the evidently intended rewrite ------------------------------------------

  /** The name as a template that stands for itself: every `$` doubled. */
  function Escape(name: string): (t: string)
    ensures !QuotesMatch(t)
    ensures OnOneLine(name) ==> PlainName(t)
    decreases |name|
  {
    if |name| == 0 then ""
    else
      var rest := Escape(name[1..]);
      if name[0] == '$' then
        assert ("$$" + rest)[2..] == rest;
        "$$" + rest
      else
        assert ([name[0]] + rest)[1..] == rest;
        [name[0]] + rest
  }

  /** Escaping is undone by substitution, whatever the match. */
  lemma {:induction false} ExpandEscape(name: string, matched: string)
    ensures Expand(Escape(name), matched) == name
    decreases |name|
  {
    if |name| > 0 {
      var rest := Escape(name[1..]);
      ExpandEscape(name[1..], matched);
      if name[0] == '$' {
        assert ("$$" + rest)[2..] == rest;
      } else {
        assert ([name[0]] + rest)[1..] == rest;
      }
      assert name == [name[0]] + name[1..];
    }
  }

  /** The signing rewrite with the name escaped: the line is cut at its first match
      and ends with `signingConfig signingConfigs.<name>` for every name. */
  function RewriteLineEscaped(line: string, name: string): (r: string)
    ensures !Contains(line) ==> r == line
    ensures Contains(line) ==>
      exists i: nat :: IsFirstMatch(line, i) && r == line[..i] + Selector(name)
    ensures r == RewriteLine(line, Escape(name))
  {
    match FirstMatch(line)
    case None => RewriteLine(line, Escape(name))
    case Some(i) =>
      ExpandEscape(name, line[i..]);
      RewriteLine(line, Escape(name))
  }

  /** With the name escaped, a later switch overrides an earlier one for every earlier
      name on one line; in particular the rewrite is idempotent. */
  lemma RewriteLineEscapedOverrides(line: string, a: string, b: string)
    requires OnOneLine(a)
    ensures RewriteLineEscaped(RewriteLineEscaped(line, a), b) == RewriteLineEscaped(line, b)
  {
    ExpandEscape(a, "");
    ExpandEscape(b, "");
    RewriteLineOverrides(line, Escape(a), Escape(b));
  }
}
