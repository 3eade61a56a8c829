/** How the two servlets fit together: the converter redirects to a name the
    download handler accepts. */
module EndToEnd {
  import opened Wrappers
  import opened JavaString
  import opened PdfGenerator
  import opened ImageToPdfServlet
  import opened DownloadServlet

  /** Once the converter has written its PDF into the output directory, a download
      of the name it redirected to streams that file. */
  lemma ConvertThenDownload(multipart: bool, items: seq<Item>, tokens: seq<string>, outToken: string,
                            decode: map<string, Image>, outputDir: seq<string>, existing: set<seq<string>>)
    requires |tokens| == |items| && IsUuidText(outToken)
    requires Convert(multipart, items, tokens, outToken, decode).Redirected?
    ensures var name := Convert(multipart, items, tokens, outToken, decode).pdfName;
      Download(Some(name), outputDir, existing + {outputDir + [name]}) == Stream(outputDir + [name])
  {
    ConvertOutcomes(multipart, items, tokens, outToken, decode);
    GeneratedNameAccepted(outToken, outputDir, existing + {outputDir + [outToken + ".pdf"]});
  }
}
