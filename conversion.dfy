/** Formatter.Conversion: the conversion characters the parser accepts,
    grouped by the kind of argument they format. */
module Conversion {

  /** b, h, s: applicable to every argument. */
  predicate IsGeneral(c: char) {
    c == 'b' || c == 'B' || c == 's' || c == 'S' || c == 'h' || c == 'H'
  }

  predicate IsCharacter(c: char) {
    c == 'c' || c == 'C'
  }

  /** d, o, x: there is no upper-case decimal or octal conversion. */
  predicate IsInteger(c: char) {
    c == 'd' || c == 'o' || c == 'x' || c == 'X'
  }

  /** e, g, f, a: there is no upper-case 'F'. */
  predicate IsFloat(c: char) {
    c == 'e' || c == 'E' || c == 'g' || c == 'G' || c == 'f' || c == 'a' || c == 'A'
  }

  /** The conversions that take no argument: line separator and percent. */
  predicate IsText(c: char) {
    c == 'n' || c == '%'
  }

  /** Conversion.isValid: 't' counts as valid here; 'T' does not. */
  predicate IsValid(c: char) {
    IsGeneral(c) || IsInteger(c) || IsFloat(c) || IsText(c) || c == 't' || IsCharacter(c)
  }

  /** The tables in terms of case: each category is a set of lower-case
      letters, accepted in upper case too except for d, o, f, n and t. */
  lemma Categories(c: char)
    ensures IsGeneral(c) <==> ToLowerCase(c) in "bhs"
    ensures IsCharacter(c) <==> ToLowerCase(c) == 'c'
    ensures IsInteger(c) <==> ToLowerCase(c) in "dox" && c != 'D' && c != 'O'
    ensures IsFloat(c) <==> ToLowerCase(c) in "egfa" && c != 'F'
    ensures IsText(c) ==> ToLowerCase(c) == c
    ensures IsValid(c) <==> ToLowerCase(c) in "bhscdoxegfant%" && c !in "DOFNT"
  {
  }

  predicate IsUpperCase(c: char) { 'A' <= c <= 'Z' }

  function ToLowerCase(c: char): (r: char)
    ensures IsUpperCase(c) ==> 'a' <= r <= 'z' && r as int == c as int + 32
    ensures !IsUpperCase(c) ==> r == c
  {
    if IsUpperCase(c) then (c as int + 32) as char else c
  }

  function ToUpperCase(c: char): (r: char)
    ensures 'a' <= c <= 'z' ==> IsUpperCase(r) && r as int == c as int - 32
    ensures !('a' <= c <= 'z') ==> r == c
  {
    if 'a' <= c <= 'z' then (c as int - 32) as char else c
  }
}

/** Formatter.DateTime: the suffixes a t/T conversion accepts. */
module DateTime {

  /** DateTime.isValid: case-sensitive; g, G, u, U, V, w, W, X and x are
      commented out in the table and so rejected. Every suffix is an ASCII
      letter. */
  function IsValid(c: char): (r: bool)
    ensures r ==> 'a' <= c <= 'z' || 'A' <= c <= 'Z'
    ensures c in "gGuUVwWXx" ==> !r
  {
    match c
    case 'H' | 'I' | 'k' | 'l' | 'M' | 'N' | 'L' | 'Q' | 'p' | 's' | 'S' | 'T' | 'z' | 'Z' => true
    case 'a' | 'A' | 'b' | 'B' | 'C' | 'd' | 'e' | 'h' | 'j' | 'm' | 'y' | 'Y' | 'r' | 'R' | 'c' | 'D' | 'F' => true
    case _ => false
  }
}
