/**
 * The remove-object form: the check that the object name is a single word,
 * made before any request is built, and the `loading` and `content` cells
 * around the request.
 */
module RemoveObject {
  import opened Api
  import JsString

  /** The toast raised when the object name has more than one word. */
  const SingleObjectMessage: string := "Please enter a single object name to remove."

  /** `object.trim().split(' ').length > 1`: the submission is refused. */
  predicate Rejects(objectName: string)
  {
    |JsString.Split(JsString.Trim(objectName), ' ')| > 1
  }

  /** The name is refused exactly when its trimmed text holds a space character. */
  lemma RejectsIffInnerSpace(objectName: string)
    ensures Rejects(objectName) <==> ' ' in JsString.Trim(objectName)
  {
    JsString.SplitIsSeveralParts(JsString.Trim(objectName), ' ');
  }

  /** Whitespace around the name never decides the check. */
  lemma OuterWhitespaceIgnored(w1: string, objectName: string, w2: string)
    requires JsString.AllWhitespace(w1) && JsString.AllWhitespace(w2)
    ensures Rejects(w1 + objectName + w2) == Rejects(objectName)
  {
    JsString.TrimIgnoresOuterWhitespace(w1, objectName, w2);
  }

  /**
   * Only the space character separates words: a name without one passes,
   * whatever other whitespace (tab, newline) it holds inside.
   */
  lemma NoSpacePasses(objectName: string)
    requires ' ' !in objectName
    ensures !Rejects(objectName)
  {
    RejectsIffInnerSpace(objectName);
    JsString.TrimIsInnerSlice(objectName);
  }

  /** An empty or whitespace-only name passes the check. */
  lemma BlankPasses(objectName: string)
    requires JsString.AllWhitespace(objectName)
    ensures !Rejects(objectName)
  {
    JsString.TrimAllWhitespace(objectName);
  }

  /** Two words separated by a single space are refused. */
  lemma TwoWordsRejected(first: string, second: string)
    requires first != [] && second != []
    requires forall c :: c in first + second ==> !JsString.IsWhitespace(c)
    ensures Rejects(first + " " + second)
  {
    var s := first + " " + second;
    assert !JsString.IsWhitespace(s[0]) && !JsString.IsWhitespace(s[|s| - 1]) by {
      assert s[0] == first[0] && first[0] in first + second;
      assert s[|s| - 1] == second[|second| - 1] && second[|second| - 1] in first + second;
    }
    assert JsString.TrimStart(s) == s;
    assert JsString.TrimEnd(s) == s;
    assert s[|first|] == ' ';
    RejectsIffInnerSpace(s);
  }

  /** The image file chosen in the form, an opaque handle. */
  type FileHandle = nat

  /** The form data sent to the server: the chosen image and the object name as typed. */
  datatype Request = Request(image: Option<FileHandle>, objectName: string)

  /** The form's state cells and its submit handler. */
  class RemoveObjectForm {
    var input: Option<FileHandle>
    var objectName: string
    var loading: bool
    var content: string

    /** The state on mount: no image, an empty name, not loading, no result. */
    constructor ()
      ensures input == None && objectName == "" && !loading && content == ""
    {
      input, objectName, loading, content := None, "", false, "";
    }

    /** The image input's `onChange`. */
    method ChooseImage(file: Option<FileHandle>)
      modifies this`input
      ensures input == file
    {
      input := file;
    }

    /** The object name input's `onChange`. */
    method TypeObjectName(text: string)
      modifies this`objectName
      ensures objectName == text
    {
      objectName := text;
    }

    /**
     * `onSubmitHandler`. A refused name raises a toast and returns before any
     * form data is built, leaving `content` as it was. Otherwise the request
     * carries the image and the name as typed (untrimmed); a successful reply
     * sets `content`, a failed one or an exception only raises a toast.
     * `loading` is false afterwards on every path.
     */
    method Submit(reply: Reply<string>) returns (request: Option<Request>, notice: Notice)
      modifies this`loading, this`content
      ensures !loading
      ensures Rejects(objectName) ==>
        && request == None && content == old(content)
        && notice == ErrorToast(SingleObjectMessage)
      ensures !Rejects(objectName) ==>
        && request == Some(Request(input, objectName))
        && content == (if reply.Success? then reply.value else old(content))
        && notice == ErrorNotice(reply)
    {
      loading := true;
      var refused := Rejects(objectName);
      if refused {
        loading := false;
        return None, ErrorToast(SingleObjectMessage);
      }
      request := Some(Request(input, objectName));
      match reply {
        case Success(result) =>
          content := result;
          notice := Quiet;
        case Failure(message) =>
          notice := ErrorToast(message);
        case Thrown(message) =>
          notice := ErrorToast(message);
      }
      loading := false;
    }
  }
}
