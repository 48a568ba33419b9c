/** `get_color_for_path` and the `Colours` table (main.py:32-81): the colour a
    name is printed in, decided from what the filesystem reports about its path
    and from the path's extension. The filesystem's answers are an input here. */
module Classify {

  import Paths

  /** The colour classes of the `Colours` table. */
  datatype Colour = Reset | Blue | Green | Cyan | Red | Yellow | Magenta | White

  const Esc: char := 27 as char

  /** The escape sequence of each class: ANSI codes when colours are on, and
      the empty string for every class when they are off (main.py:33-52). */
  function Code(useColours: bool, c: Colour): string
  {
    if !useColours then ""
    else match c
      case Reset => "\U{1b}[0m"
      case Blue => "\U{1b}[1;94m"
      case Green => "\U{1b}[92m"
      case Cyan => "\U{1b}[96m"
      case Red => "\U{1b}[1;91m"
      case Yellow => "\U{1b}[93m"
      case Magenta => "\U{1b}[1;95m"
      case White => ""
  }

  /** The outcome of `os.stat(path)`: a failure (caught by the surrounding
      `except`) or the mode bits. */
  datatype StatResult = StatFailed | Stat(mode: bv32)

  /** What the filesystem answers about a path: `os.path.islink`,
      `os.path.exists` (which follows the link), `os.path.isdir` and `os.stat`. */
  datatype Meta = Meta(isLink: bool, resolves: bool, isDir: bool, stat: StatResult)

  const Archives: seq<string> := [".zip", ".tar", ".gz", ".bz2", ".rar", ".7z"]
  const Images: seq<string> := [".jpg", ".jpeg", ".png", ".gif", ".bmp", ".svg"]

  /** `stat.S_IXUSR`, the owner-execute bit 0o100. */
  const OwnerExecBit: bv32 := 0x40

  predicate OwnerExec(mode: bv32)
  {
    mode & OwnerExecBit != 0
  }

  /** `os.path.splitext(path)[1].lower()`. */
  function Extension(path: string): string
  {
    Paths.Lower(Paths.SplitExt(path).1)
  }

  /** The colour class chosen when colours are on (main.py:58-81): links first,
      then directories, then the execute bit, then the extension; a failing
      `os.stat` falls through to the default. */
  function Classify(m: Meta, path: string): Colour
  {
    if m.isLink then (if m.resolves then Cyan else Red)
    else if m.isDir then Blue
    else if m.stat.StatFailed? then White
    else if OwnerExec(m.stat.mode) then Green
    else if Extension(path) in Archives then Red
    else if Extension(path) in Images then Magenta
    else White
  }

  /** `get_color_for_path(path)`: the escape sequence printed before a name. */
  function ColourFor(useColours: bool, m: Meta, path: string): string
  {
    if !useColours then "" else Code(true, Classify(m, path))
  }

  /** The decision table of `get_color_for_path`, one row per colour: a link is
      cyan when it resolves and red when broken, a directory is blue, a
      statable owner-executable file green, and only a statable, non-executable
      regular file is coloured by its extension; everything else is the default. */
  lemma ClassifyTable(m: Meta, path: string)
    ensures Classify(m, path) == Cyan <==> m.isLink && m.resolves
    ensures Classify(m, path) == Blue <==> !m.isLink && m.isDir
    ensures Classify(m, path) == Green <==> !m.isLink && !m.isDir && m.stat.Stat? && OwnerExec(m.stat.mode)
    ensures Classify(m, path) == Red <==>
              (m.isLink && !m.resolves)
              || (!m.isLink && !m.isDir && m.stat.Stat? && !OwnerExec(m.stat.mode) && Extension(path) in Archives)
    ensures Classify(m, path) == Magenta <==>
              !m.isLink && !m.isDir && m.stat.Stat? && !OwnerExec(m.stat.mode)
              && Extension(path) !in Archives && Extension(path) in Images
    ensures Classify(m, path) != Reset && Classify(m, path) != Yellow
  {
  }

  /** Every class but the default is visible when colours are on, no two
      distinct non-default classes share an escape sequence, and every escape
      sequence starts with ESC. */
  lemma CodesDistinct(c: Colour, d: Colour)
    ensures Code(true, c) == "" <==> c == White
    ensures c != d && c != White && d != White ==> Code(true, c) != Code(true, d)
    ensures c != White ==> Code(true, c)[0] == Esc
    ensures forall k :: 0 <= k < |Code(true, c)| && Code(true, c)[k] == Esc ==> k == 0
  {
  }

  /** The extension is read from the last component of the path alone: a dot
      in a directory name never makes the file below it an archive or image. */
  lemma ExtensionOfLastComponent(dir: string, name: string)
    requires Paths.SepFree(name, '/')
    ensures Extension(dir + "/" + name) == Extension(name)
  {
    Paths.SplitExtLastComponent(dir, name);
  }
}
