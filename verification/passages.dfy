/** The fixed sample passages a test draws its reference text from. */
module Passages {

  const Texts: seq<string> := [
    "The quick brown fox jumps over the lazy dog. Programming is the art of algorithm design and the craft of debugging errant code. It is a process of problem solving. Technology continues to evolve at a breakneck pace, transforming the way we live and work.",
    "A journey of a thousand miles begins with a single step. The only way to do great work is to love what you do. If you haven't found it yet, keep looking. Don't settle. As with all matters of the heart, you'll know when you find it.",
    "In the middle of every difficulty lies opportunity. Success is not final, failure is not fatal: it is the courage to continue that counts. Believe you can and you're halfway there. Keep your face always toward the sunshine and shadows will fall behind you."
  ]

  /** The index a random draw can produce: floor(random * 3). */
  type PassageIndex = i: int | 0 <= i < 3

  /** The passage drawn; each is longer than 200 characters. */
  function Passage(i: PassageIndex): (t: string)
    ensures |t| > 200
  {
    Texts[i]
  }
}
