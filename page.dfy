/**
 The pure helpers of the document reader page: the keystroke filter of the read-only
 reader, the highlight colour map, the stylesheet and template of the exported snapshot,
 and the suggested download name.
 */
module Page {
  import opened Wrappers
  import opened Text

  // ---- Keystroke filter ----

  /** The shortcut letters that pass the filter once lower-cased: copy, select all, cut. */
  const ShortcutKeys: seq<string> := ["c", "a", "x"]

  /**
   Whether a keydown in the reader is let through; every other key has its default
   action prevented, so the reader cannot be typed into.
   */
  function KeyAllowed(ctrlKey: bool, metaKey: bool, key: string): (allowed: bool)
    ensures allowed <==> (ctrlKey || metaKey) && key in {"c", "C", "a", "A", "x", "X"}
  {
    LowersToLetter(key, 'c');
    LowersToLetter(key, 'a');
    LowersToLetter(key, 'x');
    (ctrlKey || metaKey) && ToLower(key) in ShortcutKeys
  }

  // ---- Highlight colours ----

  /** The fallback colours used when a highlight cannot be placed as one wrapping span. */
  const ColorMap: map<string, string> := map[
    "highlight-yellow" := "#fde047",
    "highlight-green" := "#86efac",
    "highlight-blue" := "#93c5fd",
    "highlight-pink" := "#f9a8d4"
  ]

  /** `colorMap[className]`, which is `undefined` for a class the map does not list. */
  function ColorOf(className: string): (c: Option<string>)
    ensures className == "highlight-yellow" ==> c == Some("#fde047")
    ensures className == "highlight-green" ==> c == Some("#86efac")
    ensures className == "highlight-blue" ==> c == Some("#93c5fd")
    ensures className == "highlight-pink" ==> c == Some("#f9a8d4")
    ensures className !in {"highlight-yellow", "highlight-green", "highlight-blue", "highlight-pink"} ==> c == None
  {
    if className in ColorMap then Some(ColorMap[className]) else None
  }

  // ---- Export snapshot ----

  /** One rule of the export stylesheet giving a highlight class its background colour. */
  function BackgroundRule(className: string, colour: string): string
  {
    "." + className + "{background:" + colour + "}"
  }

  const BodyRule := "body{font-family:sans-serif;max-width:800px;margin:2rem auto;line-height:1.6;color:#333}"
  const YellowRule := BackgroundRule("highlight-yellow", "#fde047")
  const GreenRule := BackgroundRule("highlight-green", "#86efac")
  const BlueRule := BackgroundRule("highlight-blue", "#93c5fd")
  const PinkRule := BackgroundRule("highlight-pink", "#f9a8d4")
  const QuoteRule := "blockquote{border-left:4px solid #ccc;padding-left:1em;color:#666}"
  const PreRule := "pre{background:#f4f4f4;padding:1em;border-radius:5px;overflow-x:auto}"
  const ImageRule := "img{max-width:100%}"

  /** The style element's text, piece by piece as the template writes it: two colour rules to a line. */
  const StylePieces: seq<string> := [
    BodyRule, "\n",
    YellowRule, " ", GreenRule, "\n",
    BlueRule, " ", PinkRule, "\n",
    QuoteRule, "\n",
    PreRule, "\n",
    ImageRule, "\n"
  ]

  /** The text of the snapshot's style element. */
  const ExportStyle: string := Concat(StylePieces)

  /**
   Every colour of the fallback map is the background the export stylesheet gives the same
   class, so a highlight looks the same whichever way it was placed and after export.
   */
  lemma ColorsAgreeWithStylesheet()
    ensures forall className :: className in ColorMap ==>
      IndexOf(ExportStyle, BackgroundRule(className, ColorMap[className])).Some?
  {
    PartOccurs(StylePieces, 2);
    PartOccurs(StylePieces, 4);
    PartOccurs(StylePieces, 6);
    PartOccurs(StylePieces, 8);
    IndexOfFinds(ExportStyle, YellowRule);
    IndexOfFinds(ExportStyle, GreenRule);
    IndexOfFinds(ExportStyle, BlueRule);
    IndexOfFinds(ExportStyle, PinkRule);
  }

  /** The part of the snapshot before the document title. */
  const TitleOpen := "\n<!DOCTYPE html>\n<html>\n<head>\n<meta charset=\"utf-8\">\n<title>"

  /** The part of the snapshot between the title and the document body. */
  const TitleToBody := "</title>\n<style>\n" + ExportStyle + "</style>\n</head>\n<body>\n"

  /** The part of the snapshot after the document body. */
  const BodyClose := "\n</body>\n</html>"

  /**
   The standalone HTML document that is offered for download: `title` in the title
   element, the fixed stylesheet, and `body` as the content of the body element.
   */
  function Snapshot(title: string, body: string): (doc: string)
    ensures |doc| == |TitleOpen| + |title| + |TitleToBody| + |body| + |BodyClose|
    ensures doc[|TitleOpen|..|TitleOpen| + |title|] == title
    ensures doc[|TitleOpen| + |title| + |TitleToBody|..|doc| - |BodyClose|] == body
  {
    FiveParts(TitleOpen, title, TitleToBody, body, BodyClose);
    TitleOpen + title + TitleToBody + body + BodyClose
  }

  /** Where the second and the fourth of five concatenated strings stand. */
  lemma FiveParts(a: string, t: string, m: string, b: string, c: string)
    ensures var doc := a + t + m + b + c;
      && |doc| == |a| + |t| + |m| + |b| + |c|
      && doc[|a|..|a| + |t|] == t
      && doc[|a| + |t| + |m|..|doc| - |c|] == b
  {
  }

  /** Two snapshots with the same title are equal only if their bodies are. */
  lemma SnapshotIsInjective(title: string, body1: string, body2: string)
    requires Snapshot(title, body1) == Snapshot(title, body2)
    ensures body1 == body2
  {
  }

  // ---- Download name ----

  /**
   The suggested file name of the snapshot: the FIRST ".md" in the document name becomes
   ".html", wherever it stands; a name without ".md" is kept as it is.
   */
  function DownloadName(name: string): (file: string)
    ensures Absent(name, ".md") ==> file == name
    ensures forall i: nat :: FirstAt(name, ".md", i) ==> file == name[..i] + ".html" + name[i + 3..]
  {
    ReplaceFirst(name, ".md", ".html")
  }

  /** A string without a dot holds no ".md". */
  lemma NoDotNoMarkdown(s: string)
    requires forall i :: 0 <= i < |s| ==> s[i] != '.'
    ensures Absent(s, ".md")
  {
    forall j: nat | j <= |s| ensures !OccursAt(s, ".md", j) {
      if j + 3 <= |s| {
        assert s[j..j + 3][0] == s[j];
      }
    }
  }

  /**
   When ".md" first occurs right after `stem`, exactly that ".md" becomes ".html" and
   whatever follows it is kept, even a later ".md".
   */
  lemma DownloadNameRenamesFirst(stem: string, rest: string)
    requires Absent(stem, ".md")
    ensures DownloadName(stem + ".md" + rest) == stem + ".html" + rest
  {
    var name := stem + ".md" + rest;
    OccursInMiddle(stem, ".md", rest);
    forall j: nat | j < |stem|
      ensures !OccursAt(name, ".md", j)
    {
      if j + 3 <= |stem| {
        assert name[j..j + 3] == stem[j..j + 3];
        assert !OccursAt(stem, ".md", j);
      } else if j + 2 == |stem| {
        assert name[j + 2] == '.';
      } else {
        assert name[j + 1] == '.';
      }
    }
    assert FirstAt(name, ".md", |stem|);
    assert name[..|stem|] == stem;
    assert name[|stem| + 3..] == rest;
  }

  /** The welcome document is offered as "Welcome.html". */
  lemma WelcomeDownloadName()
    ensures DownloadName("Welcome.md") == "Welcome.html"
  {
    NoDotNoMarkdown("Welcome");
    DownloadNameRenamesFirst("Welcome", "");
    assert "Welcome" + ".md" + "" == "Welcome.md";
  }

  /** Of two ".md", only the first is renamed. */
  lemma DoubleMarkdownDownloadName()
    ensures DownloadName("a.md.md") == "a.html.md"
  {
    NoDotNoMarkdown("a");
    DownloadNameRenamesFirst("a", ".md");
    assert "a" + ".md" + ".md" == "a.md.md";
  }

  /** A name without ".md" is kept. */
  lemma PlainDownloadName()
    ensures DownloadName("README") == "README"
  {
    NoDotNoMarkdown("README");
  }
}
