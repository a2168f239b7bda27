/**
 * The two renderings of a filled body that `build_mail` attaches to a mail:
 * the plain-text part (`body.replace('\n', '\n\n')`) and the HTML part built
 * by `html_body`, which also carries the sender's signature.
 */
module MailBody {
  import opened Strings

  /**
   * The plain-text part: every line break of the body doubled. Halving the
   * line breaks gives the body back, so none is lost or invented.
   */
  function PlainTextBody(body: string): (text: string)
    ensures ReplaceAll(text, "\n\n", "\n") == body
  {
    ReplaceAllUndoesReplaceChar(body, '\n', "\n\n");
    ReplaceChar(body, '\n', "\n\n")
  }

  /** What `html_body` writes before the body. */
  const HtmlHead := "        <html>\n            <head></head>\n            <body>\n"
    + "                <p style=\"font-family: Arial, sans-serif; font-size: 15px;\">\n                    "

  /** What `html_body` writes between the body and the footer. */
  const ParagraphEnd := "\n                </p>\n            </body>\n            "

  const FooterOpen := "<footer>"
  const FooterClose := "</footer>"

  /** What `html_body` writes after the footer. */
  const DocumentEnd := "\n        </html>\n        "

  /** The body inside the paragraph: every line break becomes `<br><br>`. */
  function HtmlText(body: string): (text: string)
    ensures '\n' !in text
  {
    ReplaceChar(body, '\n', "<br><br>")
  }

  /** Both renderings are the body's lines, joined by a blank line and by two breaks respectively. */
  lemma BodiesJoinLines(body: string)
    ensures PlainTextBody(body) == Join(Split(body, '\n'), "\n\n")
    ensures HtmlText(body) == Join(Split(body, '\n'), "<br><br>")
  {
    ReplaceIsJoinOfSplit(body, '\n', "\n\n");
    ReplaceIsJoinOfSplit(body, '\n', "<br><br>");
  }

  /** A body without `<` is given back by turning each `<br><br>` of its HTML text into a line break. */
  lemma HtmlTextRoundTrip(body: string)
    requires '<' !in body
    ensures ReplaceAll(HtmlText(body), "<br><br>", "\n") == body
  {
    ReplaceAllUndoesReplaceChar(body, '\n', "<br><br>");
  }

  /**
   * Where the pieces of `head + text + mid + open + sig + close + end` lie:
   * `text` right after `head`, and `sig` between `open` and `close`.
   */
  lemma PiecesInPlace(head: string, text: string, mid: string, open: string, sig: string, close: string, end: string)
    ensures var page := head + text + mid + open + sig + close + end;
      var at := |head + text + mid + open|;
      && at + |sig| + |close| <= |page|
      && page[..|head|] == head
      && page[|head|..|head| + |text|] == text
      && page[at - |open|..at] == open
      && page[at..at + |sig|] == sig
      && page[at + |sig|..at + |sig| + |close|] == close
  {
    var page := head + text + mid + open + sig + close + end;
    var at := |head + text + mid + open|;
    assert page == head + (text + mid + open + sig + close + end);
    assert page[|head|..][..|text|] == text;
    assert page == (head + text + mid) + (open + sig + close) + end;
    assert page[at - |open|..][..|open| + |sig| + |close|] == open + sig + close;
  }

  /**
   * `html_body(body, signature)`: the page opens with the fixed head followed
   * by the body's text, and carries the signature, unescaped, right after
   * `<footer>` and right before `</footer>`.
   */
  function HtmlBody(body: string, signature: string): (html: string)
    ensures var at := |HtmlHead + HtmlText(body) + ParagraphEnd + FooterOpen|;
      && at + |signature| + |FooterClose| <= |html|
      && html[..|HtmlHead|] == HtmlHead
      && html[|HtmlHead|..|HtmlHead| + |HtmlText(body)|] == HtmlText(body)
      && html[at - |FooterOpen|..at] == "<footer>"
      && html[at..at + |signature|] == signature
      && html[at + |signature|..at + |signature| + |FooterClose|] == "</footer>"
  {
    PiecesInPlace(HtmlHead, HtmlText(body), ParagraphEnd, FooterOpen, signature, FooterClose, DocumentEnd);
    HtmlHead + HtmlText(body) + ParagraphEnd + FooterOpen + signature + FooterClose + DocumentEnd
  }
}
