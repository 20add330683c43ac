/** The part-file naming scheme of tools/build_data.py: `split_large_files` writes the
    parts of `<name>` as `<name>.part.001`, `<name>.part.002`, ..., and `load_port`
    recognises a part by splitting its path at the last two dots. */
module PartNames {
  import opened Text

  /** `f"{name}.part.{k:03d}"`, the path of part `k` of `name`. */
  function PartName(name: string, k: nat): (r: string)
    ensures |r| >= |name| + 9
  {
    name + "." + "part" + "." + Pad3(k)
  }

  /** The asset a path is a part of, when its last two dot-separated pieces are `part` and a
      string of digits: `large_file_name` in `load_port` when its test `part_check == 'part'
      and part_number.isdigit()` succeeds.  A path recognised this way starts with its base
      followed by ".part.", so it is one the scan sends down the part branch. */
  function PartBase(path: string): (r: Option<string>)
    ensures r.Some? ==> |r.value| + 7 <= |path| && path[..|r.value|] == r.value &&
                        path[|r.value|..|r.value| + 6] == ".part." && HasInfix(path, ".part.")
  {
    match RSplit2(path)
    case None => None
    case Some((base, tag, number)) =>
      if tag == "part" && IsDigits(number) then
        RSplit2Pieces(path);
        assert path == base + ".part." + number;
        assert path[|base|..|base| + 6] == ".part.";
        HasInfixAt(path, ".part.", |base|);
        Some(base)
      else None
  }

  lemma Pad3HasNoDot(k: nat)
    ensures forall i :: 0 <= i < |Pad3(k)| ==> Pad3(k)[i] != '.'
  {
  }

  /** Every name the splitter writes is recognised as a part of the file it was split from,
      with its index as the number. */
  lemma PartNameParses(name: string, k: nat)
    ensures RSplit2(PartName(name, k)) == Some((name, "part", Pad3(k)))
    ensures PartBase(PartName(name, k)) == Some(name)
  {
    Pad3HasNoDot(k);
    RSplit2Join(name, "part", Pad3(k));
  }

  /** Part names are unique: two names agree only for the same file and the same index. */
  lemma PartNameInjective(a: string, i: nat, b: string, j: nat)
    requires PartName(a, i) == PartName(b, j)
    ensures a == b && i == j
  {
    PartNameParses(a, i);
    PartNameParses(b, j);
    Pad3Injective(i, j);
  }

  /** A recognised part path is its base, ".part.", and a string of digits. */
  lemma PartBaseShape(path: string)
    requires PartBase(path).Some?
    ensures var (base, tag, number) := RSplit2(path).value;
      base == PartBase(path).value && tag == "part" && IsDigits(number) &&
      path == base + ".part." + number
  {
    RSplit2Pieces(path);
    var (base, tag, number) := RSplit2(path).value;
    assert base + "." + tag + "." + number == base + ".part." + number;
  }

  /** While indices stay below 1000, the string order that `load_port` sorts part lists by
      is the order of their indices. */
  lemma PartOrderIsIndexOrder(name: string, i: nat, j: nat)
    requires i < 1000 && j < 1000
    ensures LexLess(PartName(name, i), PartName(name, j)) <==> i < j
  {
    LexLessCommonPrefix(name + ".part.", Pad3(i), Pad3(j));
    assert PartName(name, i) == (name + ".part.") + Pad3(i);
    assert PartName(name, j) == (name + ".part.") + Pad3(j);
    Pad3Digits(i);
    Pad3Digits(j);
    ThreeCharOrder(Pad3(i), Pad3(j));
    ThreeDigitOrder(i, j);
  }

  lemma ThreeCharOrder(x: string, y: string)
    requires |x| == 3 && |y| == 3
    ensures LexLess(x, y) <==>
      x[0] < y[0] || (x[0] == y[0] && (x[1] < y[1] || (x[1] == y[1] && x[2] < y[2])))
  {
    var x1, y1 := x[1..], y[1..];
    var x2, y2 := x1[1..], y1[1..];
    assert x2 == [x[2]] && y2 == [y[2]];
    assert LexLess(x2, y2) <==> x[2] < y[2] by {
      assert x2[1..] == [] && y2[1..] == [];
    }
    assert LexLess(x1, y1) <==> x[1] < y[1] || (x[1] == y[1] && LexLess(x2, y2));
  }

  lemma ThreeDigitOrder(i: nat, j: nat)
    requires i < 1000 && j < 1000
    ensures i < j <==>
      i / 100 < j / 100 || (i / 100 == j / 100 &&
        (i / 10 % 10 < j / 10 % 10 || (i / 10 % 10 == j / 10 % 10 && i % 10 < j % 10)))
  {
    assert i == 100 * (i / 100) + 10 * (i / 10 % 10) + i % 10;
    assert j == 100 * (j / 100) + 10 * (j / 10 % 10) + j % 10;
  }

  /** From index 1000 on, the two orders part company: `.part.1000` sorts before `.part.999`. */
  lemma PartOrderAfter999(name: string)
    ensures LexLess(PartName(name, 1000), PartName(name, 999))
  {
    LexLessCommonPrefix(name + ".part.", Pad3(1000), Pad3(999));
    assert PartName(name, 1000) == (name + ".part.") + Pad3(1000);
    assert PartName(name, 999) == (name + ".part.") + Pad3(999);
    assert Decimal(1000) == Decimal(100) + ['0'];
    assert Decimal(100) == Decimal(10) + ['0'];
    assert Decimal(10) == ['1', '0'];
    Pad3Digits(999);
  }
}
