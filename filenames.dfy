/** The name of the file written for sample `n`: `<working>/test-file-%06d.bin`. */
module Filenames {
  import opened Text

  const Stem := "/test-file-"
  const Extension := ".bin"

  /** `make_filename(working, n)`. */
  function MakeFilename(working: string, n: int): (name: string)
    ensures |name| > |working| + |Stem| + |Extension|
    ensures name[..|working| + |Stem|] == working + Stem
    ensures name[|name| - |Extension|..] == Extension
  {
    working + Stem + Format06(n) + Extension
  }

  /** The part of a file name that `%06d` wrote. */
  lemma NumberPart(working: string, n: int)
    ensures var name := MakeFilename(working, n);
      name[|working| + |Stem|..|name| - |Extension|] == Format06(n)
  {
  }

  /** Distinct sample numbers never share a file name, so no iteration of a
      run opens a file an earlier one created. */
  lemma MakeFilenameInjective(working: string, n: int, m: int)
    requires MakeFilename(working, n) == MakeFilename(working, m)
    ensures n == m
  {
    NumberPart(working, n);
    NumberPart(working, m);
    Format06Injective(n, m);
  }

  /** A file name is never the working directory's own name. */
  lemma MakeFilenameIsNotWorking(working: string, n: int)
    ensures MakeFilename(working, n) != working
  {
  }

  /** For 0 through 999999 the number part is exactly six digits. */
  lemma SixDigitNames(working: string, n: int)
    requires 0 <= n <= 999999
    ensures |MakeFilename(working, n)| == |working| + |Stem| + 6 + |Extension|
  {
    Format06SixDigits(n);
  }

  /** The first file of a run. */
  lemma FirstFilename()
    ensures MakeFilename(".testing", 0) == ".testing/test-file-000000.bin"
  {
    var digits := Zeros(5) + "0";
    assert Decimal(0) == "0";
    assert Format06(0) == digits;
    assert digits == "000000";
    assert MakeFilename(".testing", 0) == ".testing" + Stem + "000000" + Extension;
  }
}
