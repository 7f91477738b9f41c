/**
  The two outbound frames of the chat protocol: the text frame
  "<user>: <text>" and the attachment frame
  "IMAGE@(<user>)@(<basename>)@(<base64>)\n". Each is paired with a parser
  that is its exact inverse on the frames it can tell apart.
*/
module Frames {
  import opened Wrappers
  import Base64
  import Paths

  const TextSeparator: string := ": "
  const ImageTag: string := "IMAGE@("
  const FieldSeparator: string := ")@("
  const FrameEnd: string := ")\n"
  const FieldClose: char := ')'

  /** The text frame sent for a chat message, and echoed to the sender; the reader TextOf gets the text back. */
  function TextFrame(user: string, text: string): (f: string)
    ensures TextOf(user, f) == Some(text)
  {
    var f := user + TextSeparator + text;
    assert f[..|user| + |TextSeparator|] == user + TextSeparator;
    f
  }

  /** The text carried by a frame sent under the given user name, if it is one. */
  function TextOf(user: string, frame: string): (r: Option<string>)
    ensures r.Some? ==> frame == user + TextSeparator + r.value
  {
    var n := |user| + |TextSeparator|;
    if |frame| >= n && frame[..n] == user + TextSeparator then
      assert frame == frame[..n] + frame[n..];
      Some(frame[n..])
    else None
  }

  /** A frame carries `text` from `user` exactly when it is the text frame of the two. */
  lemma TextFrameRoundTrip(user: string, frame: string, text: string)
    ensures TextOf(user, frame) == Some(text) <==> frame == TextFrame(user, text)
  {
    var n := |user| + |TextSeparator|;
    if frame == TextFrame(user, text) {
      assert frame[..n] == user + TextSeparator;
      assert frame[n..] == text;
    }
    if TextOf(user, frame) == Some(text) {
      assert frame == frame[..n] + frame[n..];
    }
  }

  /** The three fields of an attachment frame. */
  datatype Attachment = Attachment(user: string, name: string, payload: string)

  /**
    An attachment frame: tag, the three fields between separators, and the
    closing ")\n". The reader ParseImageFrame gets the fields back whenever
    the user and the payload hold no ")".
  */
  function ImageFrame(a: Attachment): (f: string)
    ensures FieldOk(a.user) && FieldOk(a.payload) ==> ParseImageFrame(f) == Some(a)
  {
    var f := ImageTag + a.user + FieldSeparator + a.name + FieldSeparator + a.payload + FrameEnd;
    assert FieldOk(a.user) && FieldOk(a.payload) ==> ParseImageFrame(f) == Some(a) by {
      if FieldOk(a.user) && FieldOk(a.payload) {
        ParseFields(a.user, a.name, a.payload);
      }
    }
    f
  }

  /**
    The frame send_image writes for the file at `path` whose contents are
    `raw`: the sender, the basename of the path and the base64 of the
    contents, which a reader gets back whenever the user name holds no ")".
  */
  function AttachmentFrame(user: string, path: string, raw: seq<Base64.Byte>): (f: string)
    ensures FieldOk(user) ==> ParseImageFrame(f) == Some(Attachment(user, Paths.Basename(path), Base64.Encode(raw)))
  {
    PayloadFieldOk(raw);
    ImageFrame(Attachment(user, Paths.Basename(path), Base64.Encode(raw)))
  }

  /** The position of the first `c` in `s`, or |s| when there is none. */
  function IndexOf(s: string, c: char): (i: nat)
    ensures i <= |s|
    ensures i < |s| ==> s[i] == c
    ensures forall k :: 0 <= k < i ==> s[k] != c
  {
    if |s| == 0 then 0
    else if s[0] == c then 0
    else 1 + IndexOf(s[1..], c)
  }

  /** A field can be read back only when it holds no ")", which closes it. */
  predicate FieldOk(s: string)
  {
    forall k :: 0 <= k < |s| ==> s[k] != FieldClose
  }

  /** Splits "<field>)@(<rest>" at the first ")". */
  function SplitField(s: string): Option<(string, string)>
  {
    var i := IndexOf(s, FieldClose);
    if i + |FieldSeparator| <= |s| && s[i..i + |FieldSeparator|] == FieldSeparator then
      Some((s[..i], s[i + |FieldSeparator|..]))
    else None
  }

  /** The position of the last `c` in `s`, or |s| when there is none. */
  function LastIndexOf(s: string, c: char): (i: nat)
    ensures i <= |s|
    ensures i < |s| ==> s[i] == c && forall k :: i < k < |s| ==> s[k] != c
    ensures i == |s| ==> forall k :: 0 <= k < |s| ==> s[k] != c
  {
    if |s| == 0 then 0
    else if s[|s| - 1] == c then |s| - 1
    else
      var j := LastIndexOf(s[..|s| - 1], c);
      if j == |s| - 1 then |s| else j
  }

  /**
    Splits "<field>)@(<rest>" at the last ")": the payload, being base64,
    holds no ")", so a file name may hold any character.
  */
  function SplitLastField(s: string): Option<(string, string)>
  {
    var i := LastIndexOf(s, FieldClose);
    if i + |FieldSeparator| <= |s| && s[i..i + |FieldSeparator|] == FieldSeparator then
      Some((s[..i], s[i + |FieldSeparator|..]))
    else None
  }

  /**
    Reads the three fields of an attachment frame; None when `f` is not one.
    The user field ends at the first ")" and the payload starts after the last ")@(".
  */
  function ParseImageFrame(f: string): (r: Option<Attachment>)
    ensures r.Some? ==> FieldOk(r.value.user) && FieldOk(r.value.payload)
  {
    var open, close := |ImageTag|, |FrameEnd|;
    if |f| < open + close || f[..open] != ImageTag || f[|f| - close..] != FrameEnd then None
    else
      match SplitField(f[open..|f| - close])
      case None => None
      case Some((user, rest)) =>
        match SplitLastField(rest)
        case None => None
        case Some((name, payload)) =>
          SplitFieldInverse(f[open..|f| - close], user, rest);
          SplitLastFieldInverse(rest, name, payload);
          Some(Attachment(user, name, payload))
  }

  lemma {:induction false} IndexOfField(field: string, rest: string)
    requires FieldOk(field)
    ensures IndexOf(field + [FieldClose] + rest, FieldClose) == |field|
    decreases |field|
  {
    var s := field + [FieldClose] + rest;
    if |field| > 0 {
      assert s[1..] == field[1..] + [FieldClose] + rest;
      IndexOfField(field[1..], rest);
    }
  }

  lemma SplitFieldOf(field: string, rest: string)
    requires FieldOk(field)
    ensures SplitField(field + FieldSeparator + rest) == Some((field, rest))
  {
    var s := field + FieldSeparator + rest;
    assert s == field + [FieldClose] + (['@', '('] + rest);
    IndexOfField(field, ['@', '('] + rest);
    assert s[..|field|] == field;
    assert s[|field|..|field| + 3] == FieldSeparator;
    assert s[|field| + 3..] == rest;
  }

  lemma SplitFieldInverse(s: string, field: string, rest: string)
    requires SplitField(s) == Some((field, rest))
    ensures FieldOk(field) && s == field + FieldSeparator + rest
  {
    var i := IndexOf(s, FieldClose);
    assert s == s[..i] + s[i..i + 3] + s[i + 3..];
  }

  /** The last ")" of "<field>)@(<rest>" is the one of the separator when `rest` holds none. */
  lemma LastIndexOfField(field: string, rest: string)
    requires FieldOk(rest)
    ensures LastIndexOf(field + [FieldClose] + rest, FieldClose) == |field|
  {
    ClosedField(field, rest);
    LastIndexAt(field + [FieldClose] + rest, FieldClose, |field|);
  }

  /** In "<field>)<rest>" with `rest` free of ")", the ")" after the field is the last one. */
  lemma ClosedField(field: string, rest: string)
    requires FieldOk(rest)
    ensures var s := field + [FieldClose] + rest;
      s[|field|] == FieldClose && forall k :: |field| < k < |s| ==> s[k] != FieldClose
  {
    var s := field + [FieldClose] + rest;
    forall k | |field| < k < |s| ensures s[k] != FieldClose {
      assert s[k] == rest[k - |field| - 1];
    }
  }

  /** A `c` with no `c` after it is the last one. */
  lemma LastIndexAt(s: string, c: char, j: nat)
    requires j < |s| && s[j] == c && forall k :: j < k < |s| ==> s[k] != c
    ensures LastIndexOf(s, c) == j
  {
  }

  lemma SplitLastFieldOf(field: string, rest: string)
    requires FieldOk(rest)
    ensures SplitLastField(field + FieldSeparator + rest) == Some((field, rest))
  {
    var s := field + FieldSeparator + rest;
    var tail := ['@', '('] + rest;
    assert FieldOk(tail) by {
      forall k | 0 <= k < |tail| ensures tail[k] != FieldClose {
        if k >= 2 {
          assert tail[k] == rest[k - 2];
        }
      }
    }
    assert s == field + [FieldClose] + tail;
    LastIndexOfField(field, tail);
    assert s[..|field|] == field;
    assert s[|field|..|field| + 3] == FieldSeparator;
    assert s[|field| + 3..] == rest;
  }

  lemma SplitLastFieldInverse(s: string, field: string, rest: string)
    requires SplitLastField(s) == Some((field, rest))
    ensures FieldOk(rest) && s == field + FieldSeparator + rest
  {
    var i := LastIndexOf(s, FieldClose);
    assert s == s[..i] + s[i..i + 3] + s[i + 3..];
    forall k | 0 <= k < |rest| ensures rest[k] != FieldClose {
      assert rest[k] == s[i + 3 + k];
    }
  }

  /** The frame as tag, body and end, with the body nested field by field. */
  lemma ImageFrameShape(a: Attachment)
    ensures ImageFrame(a) == ImageTag + (a.user + FieldSeparator + (a.name + FieldSeparator + a.payload)) + FrameEnd
  {
  }

  /** The reader gets back the fields of a frame whose user and payload hold no ")". */
  lemma ParseFields(user: string, name: string, payload: string)
    requires FieldOk(user) && FieldOk(payload)
    ensures ParseImageFrame(ImageTag + user + FieldSeparator + name + FieldSeparator + payload + FrameEnd)
      == Some(Attachment(user, name, payload))
  {
    var inner := name + FieldSeparator + payload;
    var body := user + FieldSeparator + inner;
    var f := ImageTag + body + FrameEnd;
    assert f == ImageTag + user + FieldSeparator + name + FieldSeparator + payload + FrameEnd;
    assert f[..|ImageTag|] == ImageTag;
    assert f[|f| - |FrameEnd|..] == FrameEnd;
    assert f[|ImageTag|..|f| - |FrameEnd|] == body;
    SplitFieldOf(user, inner);
    SplitLastFieldOf(name, payload);
  }

  lemma Reassemble(f: string, n: nat, m: nat)
    requires n + m <= |f|
    ensures f == f[..n] + f[n..|f| - m] + f[|f| - m..]
  {
  }

  lemma ParseImageFrameInverse(f: string, a: Attachment)
    requires ParseImageFrame(f) == Some(a)
    ensures FieldOk(a.user) && FieldOk(a.payload) && f == ImageFrame(a)
  {
    var body := f[|ImageTag|..|f| - |FrameEnd|];
    var inner := SplitField(body).value.1;
    SplitFieldInverse(body, a.user, inner);
    SplitLastFieldInverse(inner, a.name, a.payload);
    Reassemble(f, |ImageTag|, |FrameEnd|);
    ImageFrameShape(a);
  }

  /**
    An attachment frame is read back exactly when its user and payload hold
    no ")" (the file name may hold any character); conversely every string
    that parses is the frame of what it parses to.
  */
  lemma ImageFrameRoundTrip(f: string, a: Attachment)
    ensures ParseImageFrame(f) == Some(a) <==> FieldOk(a.user) && FieldOk(a.payload) && f == ImageFrame(a)
  {
    if ParseImageFrame(f) == Some(a) {
      ParseImageFrameInverse(f, a);
    }
  }

  /** A base64 payload never holds ")": every character is in the alphabet or is "=". */
  lemma PayloadFieldOk(raw: seq<Base64.Byte>)
    ensures FieldOk(Base64.Encode(raw))
  {
    var e := Base64.Encode(raw);
    Base64.EncodeShape(raw);
    forall k | 0 <= k < |e| ensures e[k] != FieldClose {
      assert e[k] == Base64.Pad || Base64.IsAlphabetChar(e[k]);
    }
  }

  /**
    What the receiving end recovers from an attachment frame: the sender, the
    file's basename, whatever characters it holds, and, after base64
    decoding, the file's bytes.
  */
  lemma AttachmentRoundTrip(user: string, path: string, raw: seq<Base64.Byte>)
    requires FieldOk(user)
    ensures var parsed := ParseImageFrame(AttachmentFrame(user, path, raw));
      parsed.Some? && parsed.value.user == user && parsed.value.name == Paths.Basename(path) &&
      Base64.Decode(parsed.value.payload) == Some(raw)
  {
    Base64.DecodeEncode(raw);
  }

  /** Two attachments from the same user give the same frame only for the same file name and contents. */
  lemma AttachmentInjective(user: string, p: string, r: seq<Base64.Byte>, q: string, t: seq<Base64.Byte>)
    requires FieldOk(user)
    ensures AttachmentFrame(user, p, r) == AttachmentFrame(user, q, t) ==> Paths.Basename(p) == Paths.Basename(q) && r == t
  {
    AttachmentRoundTrip(user, p, r);
    AttachmentRoundTrip(user, q, t);
  }

  /** Example: user "Guest" sends "a/b/c.png" holding bytes 1, 2, 3. */
  lemma AttachmentExample()
    ensures AttachmentFrame("Guest", "a/b/c.png", [1, 2, 3]) == "IMAGE@(Guest)@(c.png)@(AQID)\n"
  {
    Paths.BasenameExample();
    Base64.EncodeExample();
    assert AttachmentFrame("Guest", "a/b/c.png", [1, 2, 3]) == ImageFrame(Attachment("Guest", "c.png", "AQID"));
    ExampleImageFrame();
  }

  /** The frame text of the example above, spelled out. */
  lemma ExampleImageFrame()
    ensures ImageFrame(Attachment("Guest", "c.png", "AQID")) == "IMAGE@(Guest)@(c.png)@(AQID)\n"
  {
    FrameText("Guest", "c.png", "AQID", "IMAGE@(Guest)@(c.png)@(AQID)\n");
  }

  /** The text of a frame, given the concatenation of its parts. */
  lemma FrameText(user: string, name: string, payload: string, f: string)
    requires f == ImageTag + user + FieldSeparator + name + FieldSeparator + payload + FrameEnd
    ensures ImageFrame(Attachment(user, name, payload)) == f
  {
  }

  /** A file name holding ")" is read back intact: "photo (1).png" survives the frame. */
  lemma ParenthesisedNameExample()
    ensures ParseImageFrame(ImageFrame(Attachment("Guest", "photo (1).png", "AQID")))
      == Some(Attachment("Guest", "photo (1).png", "AQID"))
  {
    var a := Attachment("Guest", "photo (1).png", "AQID");
    assert FieldOk(a.user) && FieldOk(a.payload);
  }

  /** Example: user "Guest" sends "hi". */
  lemma TextFrameExample()
    ensures TextFrame("Guest", "hi") == "Guest: hi"
  {
  }
}
