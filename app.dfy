/** The state of the App component (src/App.js:11-117) that a click on the
    search button changes: the colour shown, whether the result modal is
    open, and the form submissions and alerts issued so far. Fetching the
    snapshot is not modelled: the snapshot the duplicate check reads is a
    parameter of HandleClick. */
module App {
  import opened ColorHash

  /** One parsed row of the spreadsheet snapshot. */
  datatype Row = Row(name: JsString, colorCode: string)

  /** The body submitForm posts: field `entry.1208945866` carries the text,
      field `entry.184357747` its colour. */
  datatype FormBody = FormBody(text: JsString, color: string)

  /** The message of the duplicate alert. */
  const DuplicateAlert: string := "Duplicate data. Submission aborted."

  /** `sheetData.some((row) => row.name === inputText)`, scanning from the first row. */
  function IsDuplicate(sheetData: seq<Row>, inputText: JsString): (r: bool)
    ensures r <==> exists i :: 0 <= i < |sheetData| && sheetData[i].name == inputText
  {
    if sheetData == [] then false
    else if sheetData[0].name == inputText then true
    else
      var r := IsDuplicate(sheetData[1..], inputText);
      assert forall i :: 1 <= i < |sheetData| ==> sheetData[i] == sheetData[1..][i - 1];
      r
  }

  class AppState {
    var inputText: JsString
    var colorCode: string
    var isModalOpen: bool
    /** Every form body posted to the form endpoint, oldest first. */
    var submissions: seq<FormBody>
    /** Every alert shown, oldest first. */
    var alerts: seq<string>

    /** The initial `useState` values. */
    constructor ()
      ensures inputText == [] && colorCode == "" && !isModalOpen
      ensures submissions == [] && alerts == []
    {
      inputText := [];
      colorCode := "";
      isModalOpen := false;
      submissions := [];
      alerts := [];
    }

    /** handleChange: the input field's new value becomes `inputText`. */
    method HandleChange(value: JsString)
      modifies this
      ensures inputText == value
      ensures colorCode == old(colorCode) && isModalOpen == old(isModalOpen)
      ensures submissions == old(submissions) && alerts == old(alerts)
    {
      inputText := value;
    }

    /** handleClick with `sheetData` as the snapshot it checks: the colour is
        always updated; a text that some row already names raises the
        duplicate alert and leaves the modal as it was; any other text
        (including the empty one) is submitted once with its colour and
        opens the modal. */
    method HandleClick(sheetData: seq<Row>)
      requires |inputText| < MaxExactLength
      modifies this
      ensures inputText == old(inputText)
      ensures colorCode == ColorCode(inputText)
      ensures IsDuplicate(sheetData, inputText) ==>
        submissions == old(submissions) && isModalOpen == old(isModalOpen) &&
        alerts == old(alerts) + [DuplicateAlert]
      ensures !IsDuplicate(sheetData, inputText) ==>
        submissions == old(submissions) + [FormBody(inputText, colorCode)] &&
        isModalOpen && alerts == old(alerts)
    {
      var color := TextToColor(inputText);
      colorCode := color;
      var isDuplicate := IsDuplicate(sheetData, inputText);
      if isDuplicate {
        alerts := alerts + [DuplicateAlert];
        return;
      }
      SubmitForm(inputText, color);
      isModalOpen := true;
    }

    /** submitForm: posts the text and its colour; the response is not read. */
    method SubmitForm(text: JsString, color: string)
      modifies this
      ensures submissions == old(submissions) + [FormBody(text, color)]
      ensures inputText == old(inputText) && colorCode == old(colorCode)
      ensures isModalOpen == old(isModalOpen) && alerts == old(alerts)
    {
      submissions := submissions + [FormBody(text, color)];
    }

    /** closeModal. */
    method CloseModal()
      modifies this
      ensures !isModalOpen
      ensures inputText == old(inputText) && colorCode == old(colorCode)
      ensures submissions == old(submissions) && alerts == old(alerts)
    {
      isModalOpen := false;
    }
  }
}
