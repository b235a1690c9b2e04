/** The values `create_chat_message` in app/utils/utils.py puts into its HTML
    card: the colours and alignment chosen from the sender type, the avatar
    fragment, and the formatted message body. The CSS template text itself
    and the call that renders it in the page are not modelled. */
module ChatMessage {
  import opened PyStrings
  import StructuredMessage

  datatype Option<T> = None | Some(value: T)

  /** The card's background colour, text colour and flex alignment. */
  datatype CardStyle = CardStyle(background: string, textColor: string, alignment: string)

  const UserStyle: CardStyle := CardStyle("#e0f7fa", "#00796b", "flex-start")
  const BotStyle: CardStyle := CardStyle("#f0f0f5", "#000", "flex-end")

  /** The style for `sender_type`: the user's style exactly for `"user"`, the
      assistant's for every other value. */
  function SelectStyle(senderType: string): (style: CardStyle)
    ensures style == UserStyle <==> senderType == "user"
    ensures style == BotStyle <==> senderType != "user"
    ensures style.alignment == "flex-start" <==> senderType == "user"
  {
    CardStyle(
      if senderType == "user" then "#e0f7fa" else "#f0f0f5",
      if senderType == "user" then "#00796b" else "#000",
      if senderType == "user" then "flex-start" else "flex-end")
  }

  /** Python truthiness of `avatar_url`: present and not the empty string. */
  predicate Truthy(url: Option<string>)
  {
    url.Some? && url.value != ""
  }

  const ImgOpen: string := "<img src=\""
  const ImgClose: string := "\" class=\"chat-avatar\">"

  /** The avatar `<img>` fragment, or nothing when `avatar_url` is falsy. */
  function AvatarHtml(url: Option<string>): (html: string)
    ensures html == [] <==> !Truthy(url)
    ensures Truthy(url) ==> StartsWith(html, ImgOpen) && EndsWith(html, ImgClose)
  {
    if Truthy(url) then ImgOpen + url.value + ImgClose else ""
  }

  /** Different avatar URLs give different fragments: the URL can be read back
      from between the fixed opening and closing text. */
  lemma AvatarHtmlInjective(u: Option<string>, v: Option<string>)
    requires Truthy(u) && Truthy(v) && AvatarHtml(u) == AvatarHtml(v)
    ensures u == v
  {
    var h := AvatarHtml(u);
    assert h[|ImgOpen|..|h| - |ImgClose|] == u.value;
    assert AvatarHtml(v)[|ImgOpen|..|h| - |ImgClose|] == v.value;
  }

  /** What the card shows: the sender's name, the chosen style, the avatar
      fragment and the message converted to HTML. */
  datatype ChatCard = ChatCard(sender: string, style: CardStyle, avatar: string, body: string)

  /** `create_chat_message(sender, message, sender_type="user", avatar_url=None)`,
      up to the template text and its rendering. */
  method CreateChatMessage(sender: string, message: string, senderType: string := "user",
                           avatarUrl: Option<string> := None)
    returns (card: ChatCard)
    ensures card.sender == sender
    ensures card.style == SelectStyle(senderType)
    ensures card.avatar == AvatarHtml(avatarUrl)
    ensures card.body == StructuredMessage.Render(message)
  {
    var style := SelectStyle(senderType);
    var parsed := StructuredMessage.ParseStructuredMessage(message);
    var avatar := AvatarHtml(avatarUrl);
    card := ChatCard(sender, style, avatar, parsed);
  }
}
