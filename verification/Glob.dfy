/**
 * Case-insensitive globs: `*` for any run, `?` for one character.
 *
 * `Matches` is what a glob means. `GlobMatch` is what the matcher decides: it tries the literal
 * comparison before it looks for a star, so a `*` in the pattern that meets a `*` in the text is
 * spent on that one character.
 */
module Glob {
  import opened Text

  predicate CharMatches(p: char, t: char) {
    p == '?' || Lower(p) == Lower(t)
  }

  /** The meaning of a glob. */
  predicate Matches(p: string, t: string)
    decreases |p|, |t|
  {
    if p == [] then t == []
    else if p[0] == '*' then Matches(p[1..], t) || (t != [] && Matches(p, t[1..]))
    else t != [] && CharMatches(p[0], t[0]) && Matches(p[1..], t[1..])
  }

  /** What the matcher decides: literal first, then star. */
  predicate GlobMatch(p: string, t: string)
    decreases |p|, 0, 0
  {
    if p == [] then t == []
    else if t != [] && CharMatches(p[0], t[0]) then GlobMatch(p[1..], t[1..])
    else p[0] == '*' && Starred(p[1..], t)
  }

  /** `q` matches after a star has swallowed some of `t`. */
  predicate Starred(q: string, t: string)
    decreases |q|, 1, |t|
  {
    GlobMatch(q, t) || (t != [] && Starred(q, t[1..]))
  }
}
