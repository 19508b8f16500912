/** The label of `generateLabelXML` in src/index.ts: a fixed DYMO DieCutLabel document
    with two text slots, the full name and the role display, filled in verbatim. */
module LabelTemplate {
  import opened Types
  import opened JsText

  const StringOpen := "<String>"
  const StringClose := "</String>"

  /** The template before the `<String>` of the name slot. */
  const HeadText: string :=
    "<DieCutLabel Version=\"8.0\" Units=\"twips\">\n" +
    "    <PaperOrientation>Landscape</PaperOrientation>\n" +
    "    <Id>Address</Id>\n" +
    "    <PaperName>30252 Address</PaperName>\n" +
    "    <DrawCommands/>\n" +
    "    <ObjectInfo>\n" +
    "        <TextObject>\n" +
    "            <Name>NAME</Name>\n" +
    "            <ForeColor Alpha=\"255\" Red=\"0\" Green=\"0\" Blue=\"0\"/>\n" +
    "            <BackColor Alpha=\"0\" Red=\"255\" Green=\"255\" Blue=\"255\"/>\n" +
    "            <LinkedObjectName/>\n" +
    "            <Rotation>Rotation0</Rotation>\n" +
    "            <IsMirrored>False</IsMirrored>\n" +
    "            <IsVariable>True</IsVariable>\n" +
    "            <HorizontalAlignment>Left</HorizontalAlignment>\n" +
    "            <VerticalAlignment>Top</VerticalAlignment>\n" +
    "            <TextFitMode>ShrinkToFit</TextFitMode>\n" +
    "            <UseFullFontHeight>True</UseFullFontHeight>\n" +
    "            <Verticalized>False</Verticalized>\n" +
    "            <StyledText>\n" +
    "                <Element>\n" +
    "                    "

  /** The template between the `</String>` of the name slot and the `<String>` of
      the role slot. */
  const MiddleText: string :=
    "\n" +
    "                    <Attributes>\n" +
    "                        <Font Family=\"Arial\" Size=\"14\" Bold=\"True\" Italic=\"False\" Underline=\"False\" Strikeout=\"False\"/>\n" +
    "                        <ForeColor Alpha=\"255\" Red=\"0\" Green=\"0\" Blue=\"0\"/>\n" +
    "                    </Attributes>\n" +
    "                </Element>\n" +
    "            </StyledText>\n" +
    "        </TextObject>\n" +
    "        <Bounds X=\"150\" Y=\"150\" Width=\"3000\" Height=\"400\"/>\n" +
    "    </ObjectInfo>\n" +
    "    <ObjectInfo>\n" +
    "        <TextObject>\n" +
    "            <Name>ROLE</Name>\n" +
    "            <ForeColor Alpha=\"255\" Red=\"0\" Green=\"0\" Blue=\"0\"/>\n" +
    "            <BackColor Alpha=\"0\" Red=\"255\" Green=\"255\" Blue=\"255\"/>\n" +
    "            <LinkedObjectName/>\n" +
    "            <Rotation>Rotation0</Rotation>\n" +
    "            <IsMirrored>False</IsMirrored>\n" +
    "            <IsVariable>True</IsVariable>\n" +
    "            <HorizontalAlignment>Left</HorizontalAlignment>\n" +
    "            <VerticalAlignment>Bottom</VerticalAlignment>\n" +
    "            <TextFitMode>ShrinkToFit</TextFitMode>\n" +
    "            <UseFullFontHeight>True</UseFullFontHeight>\n" +
    "            <Verticalized>False</Verticalized>\n" +
    "            <StyledText>\n" +
    "                <Element>\n" +
    "                    "

  /** The template after the `</String>` of the role slot. */
  const TailText: string :=
    "\n" +
    "                    <Attributes>\n" +
    "                        <Font Family=\"Arial\" Size=\"8\" Bold=\"False\" Italic=\"False\" Underline=\"False\" Strikeout=\"False\"/>\n" +
    "                        <ForeColor Alpha=\"255\" Red=\"0\" Green=\"0\" Blue=\"0\"/>\n" +
    "                    </Attributes>\n" +
    "                </Element>\n" +
    "            </StyledText>\n" +
    "        </TextObject>\n" +
    "        <Bounds X=\"150\" Y=\"600\" Width=\"3000\" Height=\"250\"/>\n" +
    "    </ObjectInfo>\n" +
    "</DieCutLabel>"

  const LabelHead := HeadText + StringOpen
  const LabelMiddle := StringClose + MiddleText + StringOpen
  const LabelTail := StringClose + TailText

  const Speaker := "SPEAKER"
  const Mc := "MC"
  const Organiser := "ORGANISATEUR"
  const Attendee := "PARTICIPANT"

  /** The `switch` on the (already lower-cased) role. */
  function RoleDisplay(role: string): (r: string)
    ensures r == Speaker <==> role == "speaker"
    ensures r == Mc <==> role == "mc"
    ensures r == Organiser <==> role == "organisateur"
    ensures r == Attendee <==> role != "speaker" && role != "mc" && role != "organisateur"
  {
    match role
    case "speaker" => Speaker
    case "mc" => Mc
    case "organisateur" => Organiser
    case _ => Attendee
  }

  /** `${prenom} ${nom}`. */
  function FullName(p: Participant): (r: string)
    ensures |r| == |p.prenom| + 1 + |p.nom|
    ensures p.prenom <= r && r[|p.prenom|] == ' ' && r[|p.prenom| + 1..] == p.nom
  {
    p.prenom + " " + p.nom
  }

  /** `generateLabelXML`: the two texts go into the template without any escaping. */
  function LabelXml(p: Participant): (r: string)
    ensures LabelHead <= r
  {
    Fill(LabelHead, FullName(p), LabelMiddle, RoleDisplay(p.role), LabelTail)
  }

  /** The label with the two texts filled in, for any template pieces. */
  function Fill(head: string, name: string, middle: string, role: string, tail: string): string {
    head + name + middle + role + tail
  }

  /** In a label filled into `h<String>`, `</String>m<String>` and `</String>t`,
      both texts stand verbatim between a `<String>` and a `</String>`. */
  lemma FillSlots(h: string, name: string, m: string, role: string, t: string)
    ensures var l := Fill(h + StringOpen, name, StringClose + m + StringOpen, role, StringClose + t);
      && OccursAt(StringOpen + name + StringClose, l, |h|)
      && OccursAt(StringOpen + role + StringClose, l, |h| + |StringOpen| + |name| + |StringClose| + |m|)
  {
    var l := Fill(h + StringOpen, name, StringClose + m + StringOpen, role, StringClose + t);
    var k := |h| + |StringOpen| + |name| + |StringClose| + |m|;
    assert l == h + (StringOpen + name + StringClose) + (m + StringOpen + role + StringClose + t);
    assert l == (h + StringOpen + name + StringClose + m) + (StringOpen + role + StringClose) + t;
  }

  /** The full name and the role display each stand verbatim, unescaped, between a
      `<String>` and a `</String>` of the label. */
  lemma LabelSlots(p: Participant)
    ensures OccursAt(StringOpen + FullName(p) + StringClose, LabelXml(p), |HeadText|)
    ensures OccursAt(StringOpen + RoleDisplay(p.role) + StringClose, LabelXml(p),
                     |HeadText| + |StringOpen| + |FullName(p)| + |StringClose| + |MiddleText|)
  {
    FillSlots(HeadText, FullName(p), MiddleText, RoleDisplay(p.role), TailText);
  }

  /** Which role display it is can be told from its last two letters. */
  lemma RoleDisplayByEnding(r: string)
    requires r in {Speaker, Mc, Organiser, Attendee}
    ensures r == if r[|r| - 1] == 'C' then Mc
                 else if r[|r| - 1] == 'T' then Attendee
                 else if r[|r| - 2] == 'E' then Speaker
                 else Organiser
  {
  }

  /** A common suffix can be cancelled. */
  lemma CancelSuffix(x: string, y: string, t: string)
    requires x + t == y + t
    ensures x == y
  {
    assert x == (x + t)[..|x|];
    assert y == (y + t)[..|y|];
  }

  /** A common prefix can be cancelled. */
  lemma CancelPrefix(h: string, x: string, y: string)
    requires h + x == h + y
    ensures x == y
  {
    assert x == (h + x)[|h|..];
    assert y == (h + y)[|h|..];
  }

  /** A text followed by a role display splits back into the two. */
  lemma SplitRoleDisplay(x1: string, r1: string, x2: string, r2: string)
    requires r1 in {Speaker, Mc, Organiser, Attendee} && r2 in {Speaker, Mc, Organiser, Attendee}
    requires x1 + r1 == x2 + r2
    ensures x1 == x2 && r1 == r2
  {
    var l := x1 + r1;
    assert l[|l| - 1] == r1[|r1| - 1] && l[|l| - 2] == r1[|r1| - 2];
    assert (x2 + r2)[|l| - 1] == r2[|r2| - 1] && (x2 + r2)[|l| - 2] == r2[|r2| - 2];
    RoleDisplayByEnding(r1);
    RoleDisplayByEnding(r2);
    CancelSuffix(x1, x2, r1);
  }

  /** Whatever the template text around the two slots, in particular the DieCutLabel
      text of `LabelXml`, two participants get the same label exactly when they have
      the same full name and the same role display: the four role displays end in
      four different pairs of letters, so the role display and then the name can be
      read back from a filled label. */
  lemma LabelInjective(head: string, middle: string, tail: string,
                       p1: Participant, p2: Participant)
    ensures var n1, r1, n2, r2 := FullName(p1), RoleDisplay(p1.role), FullName(p2), RoleDisplay(p2.role);
      Fill(head, n1, middle, r1, tail) == Fill(head, n2, middle, r2, tail) <==> n1 == n2 && r1 == r2
  {
    var n1, r1, n2, r2 := FullName(p1), RoleDisplay(p1.role), FullName(p2), RoleDisplay(p2.role);
    if Fill(head, n1, middle, r1, tail) == Fill(head, n2, middle, r2, tail) {
      CancelSuffix(head + n1 + middle + r1, head + n2 + middle + r2, tail);
      SplitRoleDisplay(head + n1 + middle, r1, head + n2 + middle, r2);
      CancelSuffix(head + n1, head + n2, middle);
      CancelPrefix(head, n1, n2);
    }
  }
}
