/**
 * The POST /convert handler of ImageToPdfServlet, without the I/O: the fold of
 * the multipart items into layout options and stored upload names, and the
 * outcome of the request. Random UUIDs are inputs (`tokens[i]` is the one
 * drawn for item i, `outToken` the one for the PDF), and reading an uploaded
 * file back as an image is a map from stored names to decoded images.
 */
module ImageToPdfServlet {
  import opened Wrappers
  import opened JavaString
  import opened PdfGenerator

  /** One part of a multipart request: a form field, or a file with its client-side name. */
  datatype Item = Field(name: string, value: string) | File(fileName: string)

  /** The options and uploads the handler has gathered. */
  datatype FormOptions = FormOptions(layout: string, borderSize: Int32, borderColor: string, images: seq<string>)

  const DefaultLayout := "single"
  const DefaultBorderSize: Int32 := 3
  const DefaultBorderColor := "black"

  /** The name an upload is stored under: a fresh token followed by the original
      name's extension, from its last '.'. None is the exception `substring(-1)`
      throws when the name has no '.'. */
  function StoredName(token: string, original: string): (r: Option<string>)
    ensures r.Some? <==> '.' in original
  {
    var suffix := Substring(original, LastIndexOf(original, '.'));
    if suffix.Some? then Some(token + suffix.value) else None
  }

  /** A stored name is the token followed by the original name's extension: the
      suffix from its last '.', dot included. */
  lemma StoredNameShape(token: string, original: string)
    requires '.' in original
    ensures exists k ::
      && 0 <= k < |original| && original[k] == '.' && '.' !in original[k + 1..]
      && StoredName(token, original) == Some(token + original[k..])
  {
    var k := LastIndexOf(original, '.');
    assert StoredName(token, original) == Some(token + original[k..]);
  }

  /** An item that makes the loop throw: an unparsable borderSize, or a non-empty
      file name with no '.'. */
  predicate Faulty(item: Item) {
    || (item.Field? && item.name == "borderSize" && ParseInt(item.value).None?)
    || (item.File? && item.fileName != "" && '.' !in item.fileName)
  }

  /** No item of the list is faulty, checked from the back. */
  predicate NoFault(items: seq<Item>)
    decreases |items|
  {
    |items| == 0 || (NoFault(items[..|items| - 1]) && !Faulty(items[|items| - 1]))
  }

  lemma {:induction false} NoFaultEach(items: seq<Item>)
    ensures NoFault(items) <==> forall j :: 0 <= j < |items| ==> !Faulty(items[j])
    decreases |items|
  {
    if |items| > 0 {
      var n := |items| - 1;
      NoFaultEach(items[..n]);
      assert forall j :: 0 <= j < n ==> items[..n][j] == items[j];
    }
  }

  lemma NoFaultSplit(a: seq<Item>, c: seq<Item>)
    ensures NoFault(a + c) <==> NoFault(a) && NoFault(c)
  {
    NoFaultEach(a);
    NoFaultEach(c);
    NoFaultEach(a + c);
    if NoFault(a) && NoFault(c) {
      forall j | 0 <= j < |a + c|
        ensures !Faulty((a + c)[j])
      {
        if j >= |a| {
          assert (a + c)[j] == c[j - |a|];
        }
      }
    }
    if NoFault(a + c) {
      forall j | 0 <= j < |a|
        ensures !Faulty(a[j])
      {
        assert (a + c)[j] == a[j];
      }
      forall j | 0 <= j < |c|
        ensures !Faulty(c[j])
      {
        assert (a + c)[|a| + j] == c[j];
      }
    }
  }

  /** The value of the last form field called `name`. */
  function LastValue(items: seq<Item>, name: string): Option<string>
    decreases |items|
  {
    if |items| == 0 then None
    else
      var last := items[|items| - 1];
      if last.Field? && last.name == name then Some(last.value)
      else LastValue(items[..|items| - 1], name)
  }

  /** A value found for a name is the value of some field with that name. */
  lemma {:induction false} LastValueOrigin(items: seq<Item>, name: string)
    ensures var r := LastValue(items, name);
      r.Some? ==> exists j :: 0 <= j < |items| && items[j] == Field(name, r.value)
    decreases |items|
  {
    if |items| > 0 {
      var n := |items| - 1;
      LastValueOrigin(items[..n], name);
      if !(items[n].Field? && items[n].name == name) && LastValue(items, name).Some? {
        var j :| 0 <= j < n && items[..n][j] == Field(name, LastValue(items, name).value);
        assert items[j] == items[..n][j];
      }
    }
  }

  /** The stored name one item contributes: one for a non-empty upload, none for
      a form field or an empty file field. */
  function Contribution(x: Item, t: string): seq<string> {
    if x.File? && x.fileName != "" then
      match StoredName(t, x.fileName)
      case Some(n) => [n]
      case None => []  // a faulty item: the form fails before this is used
    else []
  }

  /** The stored names of the non-empty uploads, in item order. */
  function StoredNames(items: seq<Item>, tokens: seq<string>): seq<string>
    requires |tokens| == |items|
    decreases |items|
  {
    if |items| == 0 then []
    else
      var n := |items| - 1;
      StoredNames(items[..n], tokens[..n]) + Contribution(items[n], tokens[n])
  }

  /** The border size the last borderSize field gives, or the default. The inner
      default is never used by FormSpec: there an unparsable value fails the form. */
  function LastBorderSize(items: seq<Item>): Int32 {
    var v := LastValue(items, "borderSize");
    if v.Some? then ParseInt(v.value).GetOr(DefaultBorderSize) else DefaultBorderSize
  }

  /** What the item loop means, stated without the loop: it fails when any item is
      faulty; otherwise each option is its last field's value or its default, and
      the images are the stored names of the non-empty uploads. */
  function FormSpec(items: seq<Item>, tokens: seq<string>): Option<FormOptions>
    requires |tokens| == |items|
  {
    if !NoFault(items) then None
    else Some(FormOptions(
      LastValue(items, "layout").GetOr(DefaultLayout),
      LastBorderSize(items),
      LastValue(items, "borderColor").GetOr(DefaultBorderColor),
      StoredNames(items, tokens)))
  }

  lemma StoredNamesSnoc(prefix: seq<Item>, tp: seq<string>, x: Item, t: string)
    requires |tp| == |prefix|
    ensures StoredNames(prefix + [x], tp + [t]) == StoredNames(prefix, tp) + Contribution(x, t)
  {
    assert (prefix + [x])[..|prefix|] == prefix;
    assert (tp + [t])[..|prefix|] == tp;
  }

  lemma LastValueSnoc(prefix: seq<Item>, x: Item, name: string)
    ensures LastValue(prefix + [x], name) ==
      if x.Field? && x.name == name then Some(x.value) else LastValue(prefix, name)
  {
    assert (prefix + [x])[..|prefix|] == prefix;
  }

  /** The switch in the item loop: what one non-faulty item does to the options. */
  function ApplyItem(o: FormOptions, x: Item, t: string): FormOptions
    requires !Faulty(x)
  {
    match x
    case Field(name, value) =>
      if name == "layout" then o.(layout := value)
      else if name == "borderSize" then o.(borderSize := ParseInt(value).value)
      else if name == "borderColor" then o.(borderColor := value)
      else o
    case File(_) => o.(images := o.images + Contribution(x, t))
  }

  /** One more item fails the form if it is faulty, and otherwise updates the
      options exactly as the switch does: the declarative reading and the loop agree. */
  lemma FormSpecSnoc(prefix: seq<Item>, tp: seq<string>, x: Item, t: string)
    requires |tp| == |prefix|
    ensures FormSpec(prefix + [x], tp + [t]) ==
      if FormSpec(prefix, tp).None? || Faulty(x) then None
      else Some(ApplyItem(FormSpec(prefix, tp).value, x, t))
  {
    var all, tall := prefix + [x], tp + [t];
    assert all[..|prefix|] == prefix && all[|prefix|] == x;
    assert NoFault(all) <==> NoFault(prefix) && !Faulty(x);
    if NoFault(all) {
      var o := FormSpec(prefix, tp).value;
      var o' := FormSpec(all, tall).value;
      var expected := ApplyItem(o, x, t);
      LastValueSnoc(prefix, x, "layout");
      LastValueSnoc(prefix, x, "borderSize");
      LastValueSnoc(prefix, x, "borderColor");
      StoredNamesSnoc(prefix, tp, x, t);
      assert o'.layout == expected.layout;
      assert o'.borderSize == expected.borderSize;
      assert o'.borderColor == expected.borderColor;
      assert o'.images == expected.images;
    }
  }

  /** The body of the item loop: the switch on a form field's name, or storing a
      non-empty upload; None is the exception a faulty item throws. */
  method HandleItem(o: FormOptions, item: Item, token: string) returns (r: Option<FormOptions>)
    ensures r.None? <==> Faulty(item)
    ensures r.Some? ==> r.value == ApplyItem(o, item, token)
  {
    match item {
      case Field(name, value) =>
        if name == "layout" {
          r := Some(o.(layout := value));
        } else if name == "borderSize" {
          var parsed := ParseInt(value);
          if parsed.None? {
            return None;
          }
          r := Some(o.(borderSize := parsed.value));
        } else if name == "borderColor" {
          r := Some(o.(borderColor := value));
        } else {
          r := Some(o);
        }
      case File(fileName) =>
        if fileName == "" {
          r := Some(o);
        } else {
          var stored := StoredName(token, fileName);
          if stored.None? {
            return None;
          }
          r := Some(o.(images := o.images + [stored.value]));
        }
    }
  }

  /** The item loop of doPost; None is an exception out of the loop. */
  method ParseForm(items: seq<Item>, tokens: seq<string>) returns (r: Option<FormOptions>)
    requires |tokens| == |items|
    ensures r == FormSpec(items, tokens)
  {
    var options := FormOptions(DefaultLayout, DefaultBorderSize, DefaultBorderColor, []);
    var i := 0;
    while i < |items|
      invariant 0 <= i <= |items|
      invariant FormSpec(items[..i], tokens[..i]) == Some(options)
    {
      var next := HandleItem(options, items[i], tokens[i]);
      FormSpecSnoc(items[..i], tokens[..i], items[i], tokens[i]);
      assert items[..i + 1] == items[..i] + [items[i]];
      assert tokens[..i + 1] == tokens[..i] + [tokens[i]];
      if next.None? {
        FaultyPrefixFails(items, tokens, i + 1);
        return None;
      }
      options := next.value;
      i := i + 1;
    }
    assert items[..i] == items && tokens[..i] == tokens;
    r := Some(options);
  }

  /** Once a prefix of the items has failed, the whole form fails. */
  lemma FaultyPrefixFails(items: seq<Item>, tokens: seq<string>, i: nat)
    requires |tokens| == |items| && i <= |items|
    requires FormSpec(items[..i], tokens[..i]).None?
    ensures FormSpec(items, tokens).None?
  {
    NoFaultSplit(items[..i], items[i..]);
    assert items[..i] + items[i..] == items;
  }

  // ---------------------------------------------------------------------------
  // Properties of the fold

  /** A field overrides every earlier field of the same name. */
  lemma {:induction false} LastFieldWins(items: seq<Item>, j: nat, name: string, value: string)
    requires j < |items| && items[j] == Field(name, value)
    requires forall k :: j < k < |items| ==> !(items[k].Field? && items[k].name == name)
    ensures LastValue(items, name) == Some(value)
    decreases |items|
  {
    if j < |items| - 1 {
      LastFieldWins(items[..|items| - 1], j, name, value);
    }
  }

  /** Without any field of that name, the option keeps its default. */
  lemma {:induction false} NoFieldNoValue(items: seq<Item>, name: string)
    requires forall k :: 0 <= k < |items| ==> !(items[k].Field? && items[k].name == name)
    ensures LastValue(items, name) == None
    decreases |items|
  {
    if |items| > 0 {
      NoFieldNoValue(items[..|items| - 1], name);
    }
  }

  /** The border size is the last borderSize field's value, parsed. */
  lemma BorderSizeIsLastParsed(items: seq<Item>, tokens: seq<string>)
    requires |tokens| == |items| && FormSpec(items, tokens).Some?
    ensures var v := LastValue(items, "borderSize");
      v.Some? ==> ParseInt(v.value) == Some(FormSpec(items, tokens).value.borderSize)
  {
    NoFaultEach(items);
    LastValueOrigin(items, "borderSize");
  }

  /** With no form fields at all, the options are "single", 3 and "black". */
  lemma FormDefaults(items: seq<Item>, tokens: seq<string>)
    requires |tokens| == |items| && NoFault(items)
    requires forall k :: 0 <= k < |items| ==> items[k].File?
    ensures var o := FormSpec(items, tokens).value;
      o.layout == "single" && o.borderSize == 3 && o.borderColor == "black"
  {
    NoFieldNoValue(items, "layout");
    NoFieldNoValue(items, "borderSize");
    NoFieldNoValue(items, "borderColor");
  }

  /** Splitting the items splits the stored names: uploads keep their order. */
  lemma {:induction false} StoredNamesAppend(a: seq<Item>, ta: seq<string>, c: seq<Item>, tc: seq<string>)
    requires |ta| == |a| && |tc| == |c|
    ensures StoredNames(a + c, ta + tc) == StoredNames(a, ta) + StoredNames(c, tc)
    decreases |c|
  {
    if |c| == 0 {
      assert a + c == a && ta + tc == ta;
    } else {
      var n := |c| - 1;
      var c', tc', x, t := c[..n], tc[..n], c[n], tc[n];
      assert c == c' + [x] && tc == tc' + [t];
      assert a + c == (a + c') + [x] && ta + tc == (ta + tc') + [t];
      StoredNamesAppend(a, ta, c', tc');
      StoredNamesSnoc(a + c', ta + tc', x, t);
      StoredNamesSnoc(c', tc', x, t);
    }
  }

  /** One upload contributes its stored name; an empty file field or a form field
      contributes nothing. */
  lemma StoredNamesSingle(item: Item, token: string)
    requires !Faulty(item)
    ensures StoredNames([item], [token]) ==
      if item.File? && item.fileName != "" then [StoredName(token, item.fileName).value] else []
  {
    StoredNamesSnoc([], [], item, token);
  }

  lemma {:induction false} LastValueSkip(a: seq<Item>, x: Item, c: seq<Item>, name: string)
    requires !(x.Field? && x.name == name)
    ensures LastValue(a + [x] + c, name) == LastValue(a + c, name)
    decreases |c|
  {
    if |c| == 0 {
      assert a + [x] + c == a + [x] && a + c == a;
      LastValueSnoc(a, x, name);
    } else {
      var n := |c| - 1;
      var c', y := c[..n], c[n];
      assert c == c' + [y];
      assert a + [x] + c == (a + [x] + c') + [y];
      assert a + c == (a + c') + [y];
      LastValueSnoc(a + [x] + c', y, name);
      LastValueSnoc(a + c', y, name);
      LastValueSkip(a, x, c', name);
    }
  }

  /** An item that uploads nothing can be dropped from the stored names. */
  lemma StoredNamesSkip(a: seq<Item>, ta: seq<string>, x: Item, t: string, c: seq<Item>, tc: seq<string>)
    requires |ta| == |a| && |tc| == |c| && Contribution(x, t) == []
    ensures StoredNames(a + [x] + c, ta + [t] + tc) == StoredNames(a + c, ta + tc)
  {
    StoredNamesAppend(a + [x], ta + [t], c, tc);
    StoredNamesSnoc(a, ta, x, t);
    StoredNamesAppend(a, ta, c, tc);
  }

  /** A form field with any other name changes nothing. */
  lemma UnknownFieldIgnored(a: seq<Item>, ta: seq<string>, name: string, value: string, t: string,
                            c: seq<Item>, tc: seq<string>)
    requires |ta| == |a| && |tc| == |c|
    requires name != "layout" && name != "borderSize" && name != "borderColor"
    ensures FormSpec(a + [Field(name, value)] + c, ta + [t] + tc) == FormSpec(a + c, ta + tc)
  {
    var x := Field(name, value);
    var all, tall := a + [x] + c, ta + [t] + tc;
    NoFaultSplit(a + [x], c);
    NoFaultSplit(a, [x]);
    NoFaultSplit(a, c);
    assert !Faulty(x);
    assert all == (a + [x]) + c;
    assert NoFault(all) <==> NoFault(a + c);
    if NoFault(all) {
      LastValueSkip(a, x, c, "layout");
      LastValueSkip(a, x, c, "borderSize");
      LastValueSkip(a, x, c, "borderColor");
      StoredNamesSkip(a, ta, x, t, c, tc);
    }
  }

  /** One bad borderSize value anywhere fails the whole request, even if a later
      field would have been valid; so does an upload named without a '.'. */
  lemma FaultyItemFails(a: seq<Item>, x: Item, c: seq<Item>, tokens: seq<string>)
    requires |tokens| == |a| + 1 + |c|
    requires (x.Field? && x.name == "borderSize" && ParseInt(x.value).None?)
          || (x.File? && x.fileName != "" && '.' !in x.fileName)
    ensures FormSpec(a + [x] + c, tokens) == None
  {
    assert (a + [x] + c)[|a|] == x;
    NoFaultEach(a + [x] + c);
  }

  // ---------------------------------------------------------------------------
  // The request

  /** How the request ends: the two bad-request responses, the internal-server-error
      response, or a redirect to the result page after writing `document` under
      `pdfName`. */
  datatype ConvertOutcome =
    | NotMultipart
    | NoImages
    | ServerError
    | Redirected(location: string, pdfName: string, document: seq<Page>)

  /** Reads every stored upload back as an image; None when one cannot be decoded. */
  function DecodeAll(paths: seq<string>, decode: map<string, Image>): (r: Option<seq<Image>>)
    ensures r.Some? <==> forall k :: 0 <= k < |paths| ==> paths[k] in decode
    ensures r.Some? ==> |r.value| == |paths| && forall k :: 0 <= k < |paths| ==> r.value[k] == decode[paths[k]]
    decreases |paths|
  {
    if |paths| == 0 then Some([])
    else if paths[0] !in decode then None
    else
      var rest := DecodeAll(paths[1..], decode);
      if rest.None? then
        assert exists k :: 1 <= k < |paths| && paths[k] !in decode by {
          var k :| 0 <= k < |paths[1..]| && paths[1..][k] !in decode;
          assert paths[k + 1] !in decode;
        }
        None
      else Some([decode[paths[0]]] + rest.value)
  }

  /** generatePdf: the whole document or, if any image fails to decode, nothing. */
  function GeneratePdf(paths: seq<string>, decode: map<string, Image>,
                       layout: string, b: Int32, color: Color): Option<seq<Page>>
  {
    var images := DecodeAll(paths, decode);
    if images.None? then None else Some(Compose(images.value, layout, b, color))
  }

  /** doPost. */
  function Convert(multipart: bool, items: seq<Item>, tokens: seq<string>, outToken: string,
                   decode: map<string, Image>): ConvertOutcome
    requires |tokens| == |items|
  {
    if !multipart then NotMultipart
    else
      var form := FormSpec(items, tokens);
      if form.None? then ServerError
      else if |form.value.images| == 0 then NoImages
      else
        var pdfName := outToken + ".pdf";
        var o := form.value;
        var document := GeneratePdf(o.images, decode, o.layout, o.borderSize, ColorFromString(o.borderColor));
        if document.None? then ServerError
        else Redirected("result.html?file=" + pdfName, pdfName, document.value)
  }

  /** The outcomes, in the order the handler checks for them. */
  lemma ConvertOutcomes(multipart: bool, items: seq<Item>, tokens: seq<string>, outToken: string,
                        decode: map<string, Image>)
    requires |tokens| == |items|
    ensures var r := Convert(multipart, items, tokens, outToken, decode);
      var form := FormSpec(items, tokens);
      && (r == NotMultipart <==> !multipart)
      && (r == NoImages <==> multipart && form.Some? && form.value.images == [])
      && (r == ServerError <==>
            multipart && (form.None? ||
              (form.value.images != [] && exists k :: 0 <= k < |form.value.images| && form.value.images[k] !in decode)))
      && (r.Redirected? ==>
            && form.Some? && form.value.images != []
            && r.pdfName == outToken + ".pdf"
            && r.location == "result.html?file=" + outToken + ".pdf")
  {
  }

  /** A successful conversion holds every uploaded image once, in upload order,
      laid out as the last layout field says. */
  lemma ConvertedDocument(multipart: bool, items: seq<Item>, tokens: seq<string>, outToken: string,
                          decode: map<string, Image>)
    requires |tokens| == |items|
    requires Convert(multipart, items, tokens, outToken, decode).Redirected?
    ensures var o := FormSpec(items, tokens).value;
      var doc := Convert(multipart, items, tokens, outToken, decode).document;
      && ImageOrder(doc) == Range(0, |o.images|)
      && |doc| == if IsDouble(LastValue(items, "layout").GetOr("single")) then (|o.images| + 1) / 2 else |o.images|
  {
    var o := FormSpec(items, tokens).value;
    var images := DecodeAll(o.images, decode).value;
    var color := ColorFromString(o.borderColor);
    ComposeKeepsOrder(images, o.layout, o.borderSize, color);
    ComposePageCount(images, o.layout, o.borderSize, color);
  }
}
