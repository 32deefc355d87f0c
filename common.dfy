/** Cell and frame symbols shared by every board of a Magnets game, and their negation. */
module Common {

  /** An optional value: the outcome of a lookup or a parse that can fail. */
  datatype Option<T> = None | Some(value: T)

  const Empty: char := ' '
  const Positive: char := '+'
  const Negative: char := '-'
  const Neutral: char := '#'
  const Wall: char := '\U{22A0}'
  const Up: char := '\U{22C2}'
  const Down: char := '\U{22C3}'
  const Left: char := '\U{2282}'
  const Right: char := '\U{2283}'
  const Marker: char := '?'
  /** Returned by bounds-checked reads outside a board; never stored. */
  const Border: char := 'X'

  /** The two magnet poles. */
  predicate IsPole(r: char) { r == Positive || r == Negative }

  /** The four frame orientations (a domino half pointing at its partner). */
  predicate IsOrientation(r: char) { r == Up || r == Down || r == Left || r == Right }

  /** The opposite of a symbol: poles and orientations swap, everything else is its own opposite. */
  function Negate(r: char): (n: char)
    ensures IsPole(r) ==> IsPole(n) && n != r
    ensures IsOrientation(r) ==> IsOrientation(n) && n != r
    ensures !IsPole(r) && !IsOrientation(r) ==> n == r
  {
    match r
    case '+' => Negative
    case '-' => Positive
    case '\U{22C2}' => Down
    case '\U{22C3}' => Up
    case '\U{2282}' => Right
    case '\U{2283}' => Left
    case _ => r
  }

  /** Negation is an involution over every symbol. */
  lemma NegateInvolution(r: char)
    ensures Negate(Negate(r)) == r
  {
  }

  /** Negation is injective, as an involution must be. */
  lemma NegateInjective(a: char, b: char)
    ensures Negate(a) == Negate(b) <==> a == b
  {
    NegateInvolution(a);
    NegateInvolution(b);
  }
}
